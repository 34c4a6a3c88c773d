/** `aetherfs_image_validate`: the walk over inodes, extents, checksum chains and
    the free list, and the sweep over what they use. */
module Validator {
  import opened Bytes
  import opened Crc
  import opened Layout
  import opened Intervals

  /** `aetherfs_image_read_block` of some opened image. */
  type Reader = nat -> Result<Block>

  /** What `aetherfs_image_load` has read. */
  datatype Image = Image(
    blocks: nat,
    super: seq<Byte>,
    checkpoint: Block,
    journal: seq<Byte>,
    bitmap: Block,
    free: Block,
    inodes: Block,
    rootDir: Block)

  // -------------------------------------------------------------- metadata blocks

  function ReadExtentNode(rd: Reader, at: nat): Result<Block> {
    var r := rd(at);
    if r.Err? then r
    else if !Sealed(r.value, EN_CHECKSUM) then Err(EILSEQ)
    else if NodeCount(r.value) > EXTENTS_MAX then Err(EINVAL)
    else r
  }

  function ReadChecksumBlock(rd: Reader, at: nat): Result<Block> {
    var r := rd(at);
    if r.Err? then r
    else if !Sealed(r.value, CB_CHECKSUM) then Err(EILSEQ)
    else if SumsEntries(r.value) > SUMS_PER_BLOCK then Err(EINVAL)
    else r
  }

  // ---------------------------------------------------------------- checksum chains

  /** Compares data blocks base + k .. base + entries - 1 with their sums. */
  function CheckSums(rd: Reader, sums: Block, base: nat, k: nat, entries: nat): Rc
    requires k <= entries <= SUMS_PER_BLOCK
    decreases entries - k
  {
    if k == entries then Zero else
    var r := rd(Add64(base, k));
    if r.Err? then Neg(r.error)
    else if DataChecksum(r.value) != SumAt(sums, k) then Neg(EILSEQ)
    else CheckSums(rd, sums, base, k + 1, entries)
  }

  /** A chain block that passed: how many data blocks it checked, and its successor. */
  datatype Link = Link(entries: nat, next: nat)

  /** One turn of the chain walk, with `done` of `len` data blocks already checked. */
  function ReadLink(rd: Reader, blocks: nat, pstart: nat, len: nat, csum: nat, done: nat): (r: Result<Link>)
    requires done < len
    ensures r.Ok? ==> 0 < r.value.entries <= len - done && r.value.entries <= SUMS_PER_BLOCK
    ensures r.Ok? && done + r.value.entries < len ==> DATA_START <= r.value.next < blocks
  {
    var sums := ReadChecksumBlock(rd, csum);
    if sums.Err? then Err(sums.error) else
    var entries := SumsEntries(sums.value);
    if entries == 0 || entries > SUMS_PER_BLOCK || entries > len - done then Err(EINVAL) else
    var rc := CheckSums(rd, sums.value, pstart + done, 0, entries);
    if rc.Neg? then Err(rc.error) else
    var next := SumsNext(sums.value);
    if done + entries < len && (next < DATA_START || next >= blocks) then Err(EINVAL)
    else if done + entries == len && next != 0 then Err(EINVAL)
    else Ok(Link(entries, next))
  }

  /** Follows the chain from csum until len blocks are checked, and lists the
      chain blocks. It ends on every chain, cyclic ones included, because every
      chain block must check at least one more data block. */
  function WalkChain(rd: Reader, blocks: nat, pstart: nat, len: nat, csum: nat, done: nat): Result<seq<nat>>
    requires done <= len
    decreases len - done
  {
    if done == len then Ok([]) else
    var link := ReadLink(rd, blocks, pstart, len, csum, done);
    if link.Err? then Err(link.error) else
    var rest := WalkChain(rd, blocks, pstart, len, link.value.next, done + link.value.entries);
    if rest.Err? then rest else Ok([csum] + rest.value)
  }

  function Singles(chain: seq<nat>): (r: seq<Interval>)
    ensures |r| == |chain|
  {
    seq(|chain|, i requires 0 <= i < |chain| => Interval(chain[i], 1))
  }

  // -------------------------------------------------------------------------- files

  /** What a file uses, and how many data blocks it has. */
  datatype FileScan = FileScan(used: seq<Interval>, blocks: nat)

  predicate ExtentBad(blocks: nat, node: Block, i: nat, cursor: nat)
    requires i < EXTENTS_MAX
  {
    || ExtentLen(node, i) == 0 || ExtentLogical(node, i) != cursor
    || ExtentStart(node, i) < DATA_START
    || Add64(ExtentStart(node, i), ExtentLen(node, i)) > blocks
    || ExtentSums(node, i) < DATA_START || ExtentSums(node, i) >= blocks
  }

  /** The first n extents of a node. */
  function ScanExtents(rd: Reader, blocks: nat, node: Block, n: nat): Result<FileScan>
    requires n <= EXTENTS_MAX
    decreases n
  {
    if n == 0 then Ok(FileScan([], 0)) else
    var before := ScanExtents(rd, blocks, node, n - 1);
    if before.Err? then before
    else if ExtentBad(blocks, node, n - 1, before.value.blocks) then Err(EINVAL)
    else
      var pstart, len := ExtentStart(node, n - 1), ExtentLen(node, n - 1);
      var chain := WalkChain(rd, blocks, pstart, len, ExtentSums(node, n - 1), 0);
      if chain.Err? then Err(chain.error)
      else Ok(FileScan(before.value.used + [Interval(pstart, len)] + Singles(chain.value),
                       Add64(before.value.blocks, len)))
  }

  /** The byte size does not fit the number of blocks. */
  predicate SizeBad(blocks: nat, size: nat) {
    || (blocks == 0 && size != 0)
    || (blocks != 0 && (size > blocks * 4096 % U64 || size <= (blocks - 1) * 4096 % U64))
  }

  function ScanFile(rd: Reader, blocks: nat, inode: Inode): Result<FileScan> {
    var root := ExtentRoot(inode);
    if root < DATA_START || root >= blocks then Err(EINVAL) else
    var node := ReadExtentNode(rd, root);
    if node.Err? then Err(node.error)
    else if NodeNext(node.value) != 0 then Err(EOPNOTSUPP)
    else
      var s := ScanExtents(rd, blocks, node.value, NodeCount(node.value));
      if s.Err? then s
      else if s.value.blocks != Blocks(inode) || SizeBad(s.value.blocks, Size(inode)) then Err(EINVAL)
      else Ok(FileScan([Interval(root, 1)] + s.value.used, s.value.blocks))
  }

  // ------------------------------------------------------------------------- inodes

  /** Entry i of the in-memory table: only one block of it is read from disk. */
  function InodeAt(img: Image, i: nat): Inode
    requires i < MAX_INODES
  {
    if i < INODES_READ then img.inodes[INODE_SIZE * i..INODE_SIZE * i + INODE_SIZE] else seq(512, _ => 0)
  }

  datatype Scan = Scan(used: seq<Interval>, files: nat, directories: nat, dataBlocks: nat)

  function RootDirBlock(img: Image): nat {
    Get64(img.checkpoint, 40)
  }

  /** What one inode adds. */
  function ScanInode(rd: Reader, img: Image, refs: set<nat>, i: nat, before: Scan): Result<Scan>
    requires i < MAX_INODES
  {
    var inode := InodeAt(img, i);
    if !BitSet(img.bitmap, i) then (if Mode(inode) != 0 then Err(EINVAL) else Ok(before))
    else if Mode(inode) == 0 then Err(EINVAL)
    else if !Sealed(inode, I_CHECKSUM) then Err(EILSEQ)
    else if IsDir(Mode(inode)) then
      (if i != 0 || ExtentRoot(inode) != RootDirBlock(img) then Err(EINVAL)
       else Ok(before.(directories := before.directories + 1)))
    else if !IsReg(Mode(inode)) || i !in refs then Err(EINVAL)
    else
      var f := ScanFile(rd, img.blocks, inode);
      if f.Err? then Err(f.error)
      else Ok(before.(used := before.used + f.value.used, files := before.files + 1,
                      dataBlocks := Add64(before.dataBlocks, f.value.blocks)))
  }

  /** The first n inodes. */
  function ScanInodes(rd: Reader, img: Image, refs: set<nat>, n: nat): Result<Scan>
    requires n <= MAX_INODES
    decreases n
  {
    if n == 0 then Ok(Scan([Interval(RootDirBlock(img), 1)], 0, 0, 0)) else
    var before := ScanInodes(rd, img, refs, n - 1);
    if before.Err? then before else ScanInode(rd, img, refs, n - 1, before.value)
  }

  // ----------------------------------------------------------------------- free list

  datatype FreeScan = FreeScan(free: seq<Interval>, total: nat, lastEnd: nat)

  /** The first n free extents. */
  function ScanFree(node: Block, blocks: nat, n: nat): Result<FreeScan>
    requires n <= EXTENTS_MAX
    decreases n, node
  {
    if n == 0 then Ok(FreeScan([], 0, DATA_START)) else
    var before := ScanFree(node, blocks, n - 1);
    if before.Err? then before else
    var start, len := ExtentStart(node, n - 1), ExtentLen(node, n - 1);
    if len == 0 || start < before.value.lastEnd || Add64(start, len) > blocks then Err(EINVAL)
    else Ok(FreeScan(before.value.free + [Interval(start, len)], Add64(before.value.total, len), Add64(start, len)))
  }

  // ------------------------------------------------------------------ root directory

  const DIR_BASE: nat := 14
  const MAX_NAMELEN: nat := 255

  function EntryIno(dir: Block, off: nat): nat
    requires off + 12 <= 4096
  { Get64(dir, off) }

  function EntryRecLen(dir: Block, off: nat): nat
    requires off + 12 <= 4096
  { Get16(dir, off + 8) }

  function EntryNameLen(dir: Block, off: nat): nat
    requires off + 12 <= 4096
  { Get16(dir, off + 10) }

  /** The low byte of the checksum of header and name with the checksum byte zero. */
  function EntryChecksum(dir: Block, off: nat, nameLen: nat): nat
    requires off + DIR_BASE + nameLen <= 4096
  {
    DataChecksum(dir[off..off + DIR_BASE + nameLen][13 := 0]) % 256
  }

  const DOT: Byte := 46

  /** The record at off is malformed: its length, or its name length against an
      unsigned subtraction, which lets every name pass in records shorter than
      the header. */
  predicate RecordBad(dir: Block, off: nat)
    requires off + 12 <= 4096
  {
    var rec, name := EntryRecLen(dir, off), EntryNameLen(dir, off);
    || rec == 0 || rec % 4 != 0 || off + rec > 4096
    || (rec >= DIR_BASE && name > rec - DIR_BASE) || name > MAX_NAMELEN
  }

  datatype DirScan = DirScan(refs: set<nat>, dot: bool, dotdot: bool)

  /** One directory record. A record that reaches outside the block has no meaning
      in C. */
  function ScanEntry(dir: Block, off: nat, s: DirScan): Result<DirScan>
    requires off + 12 <= 4096
  {
    var ino, name := EntryIno(dir, off), EntryNameLen(dir, off);
    if RecordBad(dir, off) then Err(EINVAL)
    else if ino == 0 then Ok(s)
    else if off + DIR_BASE + name > 4096 then Err(Undefined)
    else if dir[off + 13] != EntryChecksum(dir, off, name) then Err(EILSEQ)
    else if name == 1 && dir[off + 14] == DOT then
      (if ino != ROOT_INO then Err(EINVAL) else Ok(s.(dot := true)))
    else if name == 2 && dir[off + 14] == DOT && dir[off + 15] == DOT then
      (if ino != ROOT_INO then Err(EINVAL) else Ok(s.(dotdot := true)))
    else if ino < ROOT_INO || ino >= ROOT_INO + MAX_INODES then Err(EINVAL)
    else if ino - ROOT_INO in s.refs then Err(EEXIST)
    else Ok(s.(refs := s.refs + {ino - ROOT_INO}))
  }

  /** The records from off on. */
  function ScanDir(dir: Block, off: nat, s: DirScan): Result<DirScan>
    requires off <= 4096
    decreases 4096 - off
  {
    if off == 4096 then (if s.dot && s.dotdot then Ok(s) else Err(EINVAL))
    else if off + 12 > 4096 then Err(Undefined)
    else
      var r := ScanEntry(dir, off, s);
      if r.Err? then r else ScanDir(dir, off + EntryRecLen(dir, off), r.value)
  }

  // ------------------------------------------------------------------------ validate

  datatype Report = Report(files: nat, directories: nat, inodesUsed: nat, dataBlocks: nat, freeBlocks: nat)

  /** An accepted structure: the report and the sorted list of used intervals. */
  datatype Accepted = Accepted(report: Report, used: seq<Interval>)

  const FREE_BLOCKS: nat := 20

  /** The intervals that must cover the data area. */
  function Coverage(free: seq<Interval>, used: seq<Interval>): seq<Interval>
    decreases |used|
  {
    if used == [] then free else
    var u := used[|used| - 1];
    var rest := Coverage(free, used[..|used| - 1]);
    if u.start < DATA_START then rest else Append(rest, u.start, u.len)
  }

  /** Everything `aetherfs_image_validate` checks before the redundancy scrub. */
  function Validate(rd: Reader, img: Image): Result<Accepted>
    requires |img.super| == SUPER_SIZE && |img.journal| == JOURNAL_SIZE
  {
    if Get32(img.journal, 36) != 0 then Err(EUCLEAN)
    else if !BitSet(img.bitmap, 0) then Err(EINVAL)
    else
      var dir := ScanDir(img.rootDir, 0, DirScan({}, false, false));
      if dir.Err? then Err(dir.error) else
      var s := ScanInodes(rd, img, dir.value.refs, MAX_INODES);
      if s.Err? then Err(s.error)
      else if NodeNext(img.free) != 0 || NodeCount(img.free) > EXTENTS_MAX then Err(EINVAL)
      else
        var f := ScanFree(img.free, img.blocks, NodeCount(img.free));
        if f.Err? then Err(f.error) else
        var used := Sort(s.value.used);
        if Sweep(Sort(Coverage(f.value.free, used)), DATA_START) != Ok(img.blocks) then Err(EINVAL)
        else if Get64(img.super, FREE_BLOCKS) != f.value.total then Err(EINVAL)
        else Ok(Accepted(Report(s.value.files, s.value.directories, BitmapSetBits(img.bitmap),
                                s.value.dataBlocks, f.value.total), used))
  }
}
