/** The validator as the nested loops it is written as, each loop proved against
    the function of module Validator. */
module ValidatorLoops {
  import opened Bytes
  import opened Crc
  import opened Layout
  import opened Intervals
  import opened Validator

  method CheckSumsLoop(rd: Reader, sums: Block, base: nat, entries: nat) returns (rc: Rc)
    requires entries <= SUMS_PER_BLOCK
    ensures rc == CheckSums(rd, sums, base, 0, entries)
  {
    var index := 0;
    while index < entries
      invariant index <= entries
      invariant CheckSums(rd, sums, base, 0, entries) == CheckSums(rd, sums, base, index, entries)
    {
      var r := rd(Add64(base, index));
      if r.Err? {
        return Neg(r.error);
      }
      if DataChecksum(r.value) != SumAt(sums, index) {
        return Neg(EILSEQ);
      }
      index := index + 1;
    }
    rc := Zero;
  }

  function Prepend(head: seq<nat>, tail: Result<seq<nat>>): Result<seq<nat>> {
    if tail.Err? then tail else Ok(head + tail.value)
  }

  method ReadLinkSteps(rd: Reader, blocks: nat, pstart: nat, len: nat, csum: nat, done: nat) returns (r: Result<Link>)
    requires done < len
    ensures r == ReadLink(rd, blocks, pstart, len, csum, done)
  {
    hide CheckSums;
    var sums := ReadChecksumBlock(rd, csum);
    if sums.Err? {
      return Err(sums.error);
    }
    var entries := SumsEntries(sums.value);
    if entries == 0 || entries > SUMS_PER_BLOCK || entries > len - done {
      return Err(EINVAL);
    }
    var rc := CheckSumsLoop(rd, sums.value, pstart + done, entries);
    if rc.Neg? {
      return Err(rc.error);
    }
    var next := SumsNext(sums.value);
    if done + entries < len {
      if next < DATA_START || next >= blocks {
        return Err(EINVAL);
      }
    } else if next != 0 {
      return Err(EINVAL);
    }
    r := Ok(Link(entries, next));
  }

  method WalkChainLoop(rd: Reader, blocks: nat, pstart: nat, len: nat, first: nat) returns (r: Result<seq<nat>>)
    ensures r == WalkChain(rd, blocks, pstart, len, first, 0)
  {
    hide ReadLink;
    var chain: seq<nat> := [];
    var csum: nat, done: nat := first, 0;
    PrependEmpty(WalkChain(rd, blocks, pstart, len, first, 0));
    while done < len
      invariant done <= len
      invariant WalkChain(rd, blocks, pstart, len, first, 0) ==
                Prepend(chain, WalkChain(rd, blocks, pstart, len, csum, done))
    {
      var link := ReadLinkSteps(rd, blocks, pstart, len, csum, done);
      if link.Err? {
        return Err(link.error);
      }
      PrependTwice(chain, [csum], WalkChain(rd, blocks, pstart, len, link.value.next, done + link.value.entries));
      chain, csum, done := chain + [csum], link.value.next, done + link.value.entries;
    }
    assert chain + [] == chain;
    r := Ok(chain);
  }

  lemma PrependEmpty(r: Result<seq<nat>>)
    ensures Prepend([], r) == r
  {
    if r.Ok? {
      assert [] + r.value == r.value;
    }
  }

  lemma PrependTwice(a: seq<nat>, b: seq<nat>, r: Result<seq<nat>>)
    ensures Prepend(a, Prepend(b, r)) == Prepend(a + b, r)
  {
    if r.Ok? {
      assert a + (b + r.value) == a + b + r.value;
    }
  }

  lemma {:induction false} ScanExtentsStops(rd: Reader, blocks: nat, node: Block, i: nat, n: nat)
    requires i <= n <= EXTENTS_MAX && ScanExtents(rd, blocks, node, i).Err?
    ensures ScanExtents(rd, blocks, node, n) == ScanExtents(rd, blocks, node, i)
    decreases n
  {
    hide WalkChain, ExtentBad;
    if i < n {
      ScanExtentsStops(rd, blocks, node, i, n - 1);
    }
  }

  method ScanExtentsLoop(rd: Reader, blocks: nat, node: Block) returns (r: Result<FileScan>)
    requires NodeCount(node) <= EXTENTS_MAX
    ensures r == ScanExtents(rd, blocks, node, NodeCount(node))
  {
    hide WalkChain, NodeCount, ExtentBad, ExtentStart, ExtentLen, ExtentSums;
    var used: seq<Interval> := [];
    var cursor := 0;
    var n := NodeCount(node);
    for index := 0 to n
      invariant ScanExtents(rd, blocks, node, index) == Ok(FileScan(used, cursor))
    {
      if ExtentBad(blocks, node, index, cursor) {
        ScanExtentsStops(rd, blocks, node, index + 1, n);
        return Err(EINVAL);
      }
      var pstart, len := ExtentStart(node, index), ExtentLen(node, index);
      used := used + [Interval(pstart, len)];
      var chain := WalkChainLoop(rd, blocks, pstart, len, ExtentSums(node, index));
      if chain.Err? {
        ScanExtentsStops(rd, blocks, node, index + 1, n);
        return Err(chain.error);
      }
      used := used + Singles(chain.value);
      cursor := Add64(cursor, len);
    }
    r := Ok(FileScan(used, cursor));
  }

  method ScanFileSteps(rd: Reader, blocks: nat, inode: Inode) returns (r: Result<FileScan>)
    ensures r == ScanFile(rd, blocks, inode)
  {
    hide ScanExtents, ReadExtentNode;
    var root := ExtentRoot(inode);
    if root < DATA_START || root >= blocks {
      return Err(EINVAL);
    }
    var node := ReadExtentNode(rd, root);
    if node.Err? {
      return Err(node.error);
    }
    if NodeNext(node.value) != 0 {
      return Err(EOPNOTSUPP);
    }
    NodeCountRead(rd, root);
    r := ScanExtentsLoop(rd, blocks, node.value);
    if r.Ok? {
      if r.value.blocks != Blocks(inode) || SizeBad(r.value.blocks, Size(inode)) {
        return Err(EINVAL);
      }
      r := Ok(FileScan([Interval(root, 1)] + r.value.used, r.value.blocks));
    }
  }

  lemma NodeCountRead(rd: Reader, at: nat)
    ensures ReadExtentNode(rd, at).Ok? ==> NodeCount(ReadExtentNode(rd, at).value) <= EXTENTS_MAX
  {
  }

  lemma {:induction false} ScanInodesStops(rd: Reader, img: Image, refs: set<nat>, i: nat, n: nat)
    requires i <= n <= MAX_INODES && ScanInodes(rd, img, refs, i).Err?
    ensures ScanInodes(rd, img, refs, n) == ScanInodes(rd, img, refs, i)
    decreases n
  {
    hide ScanInode;
    if i < n {
      ScanInodesStops(rd, img, refs, i, n - 1);
    }
  }

  method ScanInodeSteps(rd: Reader, img: Image, refs: set<nat>, index: nat, before: Scan) returns (r: Result<Scan>)
    requires index < MAX_INODES
    ensures r == ScanInode(rd, img, refs, index, before)
  {
    hide ScanFile;
    var inUse := BitSet(img.bitmap, index);
    var inode := InodeAt(img, index);
    var mode := Mode(inode);
    if !inUse {
      return if mode != 0 then Err(EINVAL) else Ok(before);
    }
    if mode == 0 {
      return Err(EINVAL);
    }
    if !Sealed(inode, I_CHECKSUM) {
      return Err(EILSEQ);
    }
    if IsDir(mode) {
      if index != 0 || ExtentRoot(inode) != RootDirBlock(img) {
        return Err(EINVAL);
      }
      return Ok(before.(directories := before.directories + 1));
    }
    if !IsReg(mode) || index !in refs {
      return Err(EINVAL);
    }
    var f := ScanFileSteps(rd, img.blocks, inode);
    if f.Err? {
      return Err(f.error);
    }
    r := Ok(before.(used := before.used + f.value.used, files := before.files + 1,
            dataBlocks := Add64(before.dataBlocks, f.value.blocks)));
  }

  method ScanInodesLoop(rd: Reader, img: Image, refs: set<nat>) returns (r: Result<Scan>)
    ensures r == ScanInodes(rd, img, refs, MAX_INODES)
  {
    hide ScanInode;
    var s := Scan([Interval(RootDirBlock(img), 1)], 0, 0, 0);
    for index := 0 to MAX_INODES
      invariant ScanInodes(rd, img, refs, index) == Ok(s)
    {
      r := ScanInodeSteps(rd, img, refs, index, s);
      if r.Err? {
        ScanInodesStops(rd, img, refs, index + 1, MAX_INODES);
        return;
      }
      s := r.value;
    }
    r := Ok(s);
  }

  lemma {:induction false} ScanFreeStops(node: Block, blocks: nat, i: nat, n: nat)
    requires i <= n <= EXTENTS_MAX && ScanFree(node, blocks, i).Err?
    ensures ScanFree(node, blocks, n) == ScanFree(node, blocks, i)
    decreases n
  {
    if i < n {
      ScanFreeStops(node, blocks, i, n - 1);
    }
  }

  method ScanFreeLoop(node: Block, blocks: nat) returns (r: Result<FreeScan>)
    requires NodeCount(node) <= EXTENTS_MAX
    ensures r == ScanFree(node, blocks, NodeCount(node))
  {
    hide NodeCount, ExtentStart, ExtentLen;
    var free: seq<Interval> := [];
    var total, lastEnd := 0, DATA_START;
    var n := NodeCount(node);
    for index := 0 to n
      invariant ScanFree(node, blocks, index) == Ok(FreeScan(free, total, lastEnd))
    {
      var start, len := ExtentStart(node, index), ExtentLen(node, index);
      if len == 0 || start < lastEnd || Add64(start, len) > blocks {
        ScanFreeStops(node, blocks, index + 1, n);
        return Err(EINVAL);
      }
      free := free + [Interval(start, len)];
      total := Add64(total, len);
      lastEnd := Add64(start, len);
    }
    r := Ok(FreeScan(free, total, lastEnd));
  }

  method ScanDirLoop(dir: Block) returns (r: Result<DirScan>)
    ensures r == ScanDir(dir, 0, DirScan({}, false, false))
  {
    hide ScanEntry, EntryRecLen;
    var s := DirScan({}, false, false);
    var offset: nat := 0;
    while offset < 4096
      invariant offset <= 4096
      invariant ScanDir(dir, 0, DirScan({}, false, false)) == ScanDir(dir, offset, s)
    {
      if offset + 12 > 4096 {
        return Err(Undefined);
      }
      r := ScanEntry(dir, offset, s);
      if r.Err? {
        return;
      }
      EntryAdvances(dir, offset, s);
      s, offset := r.value, offset + EntryRecLen(dir, offset);
    }
    r := if s.dot && s.dotdot then Ok(s) else Err(EINVAL);
  }

  lemma EntryAdvances(dir: Block, off: nat, s: DirScan)
    requires off + 12 <= 4096 && ScanEntry(dir, off, s).Ok?
    ensures 0 < EntryRecLen(dir, off) <= 4096 - off
  {
  }

  method CoverageLoop(free: seq<Interval>, used: seq<Interval>) returns (r: seq<Interval>)
    ensures r == Coverage(free, used)
  {
    r := free;
    for index := 0 to |used|
      invariant r == Coverage(free, used[..index])
    {
      assert used[..index + 1][..index] == used[..index];
      if used[index].start >= DATA_START {
        r := Append(r, used[index].start, used[index].len);
      }
    }
    assert used[..|used|] == used;
  }

  /** `aetherfs_image_validate` up to the redundancy scrub. */
  method RunValidate(rd: Reader, img: Image) returns (r: Result<Accepted>)
    requires |img.super| == SUPER_SIZE && |img.journal| == JOURNAL_SIZE
    ensures r == Validate(rd, img)
  {
    hide ScanDir, ScanInodes, ScanFree, Sort, Sweep, Coverage;
    if Get32(img.journal, 36) != 0 {
      return Err(EUCLEAN);
    }
    if !BitSet(img.bitmap, 0) {
      return Err(EINVAL);
    }
    var dir := ScanDirLoop(img.rootDir);
    if dir.Err? {
      return Err(dir.error);
    }
    var s := ScanInodesLoop(rd, img, dir.value.refs);
    if s.Err? {
      return Err(s.error);
    }
    if NodeNext(img.free) != 0 || NodeCount(img.free) > EXTENTS_MAX {
      return Err(EINVAL);
    }
    var f := ScanFreeLoop(img.free, img.blocks);
    if f.Err? {
      return Err(f.error);
    }
    var used := Sort(s.value.used);
    var coverage := CoverageLoop(f.value.free, used);
    var rc := SweepCoverage(Sort(coverage), img.blocks);
    if rc.Neg? {
      return Err(EINVAL);
    }
    if Get64(img.super, FREE_BLOCKS) != f.value.total {
      return Err(EINVAL);
    }
    r := Ok(Accepted(Report(s.value.files, s.value.directories, BitmapSetBits(img.bitmap),
                            s.value.dataBlocks, f.value.total), used));
  }
}
