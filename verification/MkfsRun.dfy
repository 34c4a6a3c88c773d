/** `aetherfs_run_mkfs`: which targets it formats, and that what it formats passes
    every check of the image layer. */
module MkfsRun {
  import opened Bytes
  import opened Layout
  import opened Intervals
  import opened V = Validator
  import opened ValidatorLaws
  import opened Acceptance
  import opened Loader
  import opened Compaction
  import opened PoolMap
  import opened PoolBlocks
  import opened PoolOpen
  import opened ImageCheck
  import opened SingleDevice
  import RebalanceDevice
  import opened Mkfs

  // ---------------------------------------------------------------------------- the target

  /** A file or block device before the run; `existed` is false for a file that the
      run creates. */
  datatype Target = Target(dev: Device, existed: bool, isBlock: bool)

  /** A target ready for formatting, and the block count to format it with. */
  datatype Ready = Ready(dev: Device, blocks: nat)

  /** `ftruncate` to n blocks */
  function Resized(dev: Device, n: nat): (r: Device)
    ensures |r| == n
  {
    if n <= |dev| then dev[..n] else dev + seq(n - |dev|, _ => ZeroBlock())
  }

  /** `aetherfs_prepare_target`, with `count` the requested block count or 0. The
      byte length handed to `ftruncate` is a 64-bit product. */
  function Prepare(o: Options, count: nat, t: Target): Result<Ready> {
    if t.existed && |t.dev| > 1 && Get32(t.dev[SUPER_BLOCK], 0) == MAGIC && !o.force then Err(EEXIST)
    else if count > 0 then
      var n := count % ADDRESSABLE;
      if !t.isBlock && n >= DEVICE_MAX then Err(EINVAL)
      else if count < DATA_START then Err(ENOSPC)
      else Ok(Ready(if t.isBlock then t.dev else Resized(t.dev, n), count))
    else if t.isBlock || |t.dev| > 0 then
      if |t.dev| < DATA_START then Err(ENOSPC) else Ok(Ready(t.dev, |t.dev|))
    else Err(EINVAL)
  }

  // ------------------------------------------------------------------------ the own checks

  /** `aetherfs_validate_super` */
  function CheckNewSuper(s: Super, blocks: nat): Rc
    requires DATA_START <= blocks
  {
    if Get32(s, 0) != MAGIC || Get32(s, 4) != VERSION || Get32(s, 8) != 4096 || Get64(s, 12) != blocks then Neg(EINVAL)
    else if Get64(s, 20) != blocks - DATA_START || Get64(s, 72) != CHECKPOINT_BLOCK || Get32(s, 156) != MAX_INODES then Neg(EINVAL)
    else if Get64(s, 160) != INODE_BITMAP_BLOCK || Get64(s, 168) != 0 || Get64(s, 176) != FREE_EXTENT_BLOCK || Get64(s, 184) != 0 then Neg(EINVAL)
    else if !Sealed(s, S_CHECKSUM) then Neg(EBADE)
    else Zero
  }

  /** `aetherfs_validate_checkpoint_root` */
  function CheckNewCheckpoint(c: Block, blocks: nat): Rc {
    if Get32(c, 0) != CHECKPOINT_MAGIC || Get32(c, 4) != CHECKPOINT_VERSION || Get32(c, 12) != 1 then Neg(EINVAL)
    else if Get32(c, 16) != GroupCount(blocks) || Get32(c, 20) != 2 || Get64(c, 24) != SUPER_BLOCK then Neg(EINVAL)
    else if Get64(c, 32) != ROOT_INODE_BLOCK || Get64(c, 40) != ROOT_DIR_BLOCK || Get64(c, 48) != JOURNAL_BLOCK then Neg(EINVAL)
    else if Get64(c, 56) != INODE_BITMAP_BLOCK || Get64(c, 64) != FREE_EXTENT_BLOCK || Get64(c, 72) != INODE_BITMAP_BLOCK then Neg(EINVAL)
    else if Get64(c, 80) != 0 || Get64(c, 88) != 0 || Get64(c, 112) != SUPER_BLOCK || Get64(c, 120) != CHECKPOINT_BLOCK then Neg(EINVAL)
    else if Get64(c, 128) != DATA_START || Get64(c, 136) != blocks then Neg(EINVAL)
    else if Get64(c, 144) != 0 || Get64(c, 152) != 0 || Get64(c, 160) != 0 then Neg(EINVAL)
    else if !Sealed(c, CR_CHECKSUM) then Neg(EBADE)
    else Zero
  }

  /** `aetherfs_validate_root_inode` */
  function CheckNewInode(i: Inode): Rc {
    if !Sealed(i, I_CHECKSUM) then Neg(EBADE)
    else if Mode(i) != DIR_MODE || ExtentRoot(i) != ROOT_DIR_BLOCK then Neg(EINVAL)
    else Zero
  }

  /** `aetherfs_validate_root_dir`; a record outside the block has no meaning in C. */
  function CheckNewDir(d: Block): Rc {
    if EntryIno(d, 0) != ROOT_INO || EntryNameLen(d, 0) != 1 || d[14] != DOT then Neg(EINVAL)
    else if d[13] != EntryChecksum(d, 0, 1) then Neg(EBADE)
    else
      var off := EntryRecLen(d, 0);
      if off + 16 > 4096 then Neg(Undefined)
      else if EntryIno(d, off) != ROOT_INO || EntryNameLen(d, off) != 2 || d[off + 14] != DOT || d[off + 15] != DOT then Neg(EINVAL)
      else if d[off + 13] != EntryChecksum(d, off, 2) then Neg(EBADE)
      else Zero
  }

  /** `aetherfs_validate_journal` */
  function CheckNewJournal(j: Journal): Rc {
    if !JournalSealed(j) then Neg(EBADE) else if Get32(j, 36) != 0 then Neg(EUCLEAN) else Zero
  }

  /** `aetherfs_validate_bitmap` */
  function CheckNewBitmap(b: Block): Rc {
    var bits := CountSet(b, 4080);
    if BitmapTotal(b) != MAX_INODES then Neg(EINVAL)
    else if BitmapSetBits(b) != bits then Neg(EBADE)
    else if bits != 1 then Neg(EINVAL)
    else if !Sealed(b, BB_CHECKSUM) then Neg(EBADE)
    else Zero
  }

  /** Free blocks counted, and the end of the last extent. */
  datatype FreeRun = FreeRun(total: nat, lastEnd: nat)

  /** The first n extents, in order, inside the data area and not empty. */
  function NewFreeRun(node: Block, blocks: nat, n: nat): Result<FreeRun>
    requires n <= EXTENTS_MAX
    decreases n, node
  {
    if n == 0 then Ok(FreeRun(0, DATA_START)) else
    var before := NewFreeRun(node, blocks, n - 1);
    if before.Err? then before else
    var start, len := ExtentStart(node, n - 1), ExtentLen(node, n - 1);
    if len == 0 || start < DATA_START || start < before.value.lastEnd || Add64(start, len) > blocks then Err(EINVAL)
    else Ok(FreeRun(Add64(before.value.total, len), Add64(start, len)))
  }

  function CheckNewFree(node: Block, blocks: nat): Rc
    requires DATA_START <= blocks
  {
    if !Sealed(node, EN_CHECKSUM) then Neg(EBADE)
    else if NodeNext(node) != 0 || NodeCount(node) == 0 || NodeCount(node) > EXTENTS_MAX then Neg(EINVAL)
    else
      var f := NewFreeRun(node, blocks, NodeCount(node));
      if f.Err? then Neg(f.error) else if f.value.total != blocks - DATA_START then Neg(EINVAL) else Zero
  }

  /** `aetherfs_validate_free_extents` */
  method CheckNewFreeLoop(node: Block, blocks: nat) returns (rc: Rc)
    requires DATA_START <= blocks
    ensures rc == CheckNewFree(node, blocks)
  {
    hide Sealed, ExtentStart, ExtentLen;
    if !Sealed(node, EN_CHECKSUM) {
      return Neg(EBADE);
    }
    var count := NodeCount(node);
    if NodeNext(node) != 0 || count == 0 || count > EXTENTS_MAX {
      return Neg(EINVAL);
    }
    var freeBlocks: nat, lastEnd: nat := 0, DATA_START;
    var index := 0;
    while index < count
      invariant index <= count && NewFreeRun(node, blocks, index) == Ok(FreeRun(freeBlocks, lastEnd))
    {
      var start, len := ExtentStart(node, index), ExtentLen(node, index);
      if len == 0 || start < DATA_START || start < lastEnd || Add64(start, len) > blocks {
        NewFreeFails(node, blocks, index + 1, count);
        return Neg(EINVAL);
      }
      lastEnd := Add64(start, len);
      freeBlocks := Add64(freeBlocks, len);
      index := index + 1;
    }
    rc := if freeBlocks != blocks - DATA_START then Neg(EINVAL) else Zero;
  }

  /** A run that fails stays failed. */
  lemma {:induction false} NewFreeFails(node: Block, blocks: nat, n: nat, m: nat)
    requires n <= m <= EXTENTS_MAX && NewFreeRun(node, blocks, n).Err?
    ensures NewFreeRun(node, blocks, m) == NewFreeRun(node, blocks, n)
    decreases m
  {
    hide ExtentStart, ExtentLen;
    if n < m {
      NewFreeFails(node, blocks, n, m - 1);
    }
  }

  // -------------------------------------------------------------------------- the bootstrap

  /** The eight blocks of a new image. */
  function Bootstrap(o: Options, blocks: nat): seq<Block>
    requires DATA_START <= blocks
  {
    var s := InitSuper(o, blocks);
    [ZeroBlock(), Padded(s), Padded(InitInode(o)), InitDir(), Padded(InitJournal()), InitBitmap(), InitFree(blocks),
     InitCheckpoint(s, blocks)]
  }

  /** The formatted contents: a new bootstrap area, and the data blocks as they were. */
  function Formatted(o: Options, r: Ready): Device
    requires DATA_START <= r.blocks
  {
    Bootstrap(o, r.blocks) + (if |r.dev| > DATA_START then r.dev[DATA_START..] else [])
  }

  /** `aetherfs_write_all` of one block: a file grows at its end, a device does not. */
  method WriteAll(dev: Device, isBlock: bool, b: nat, v: Block) returns (r: Result<Device>)
    requires b <= |dev|
    ensures r.Ok? <==> b < |dev| || !isBlock
    ensures r.Err? ==> r == Err(ENOSPC)
    ensures r.Ok? ==> r.value == dev[..b] + [v] + (if b < |dev| then dev[b + 1..] else [])
  {
    if b < |dev| {
      r := Ok(dev[b := v]);
    } else if isBlock {
      r := Err(ENOSPC);
    } else {
      r := Ok(dev + [v]);
    }
  }

  /** `aetherfs_write_bootstrap`: the target afterwards is zero where a device ended too
      early. */
  method WriteBootstrap(o: Options, ready: Ready, isBlock: bool) returns (rc: Rc, dev: Device)
    requires DATA_START <= ready.blocks
    ensures rc == if DATA_START <= |ready.dev| || !isBlock then Zero else Neg(ENOSPC)
    ensures rc.Zero? ==> dev == Formatted(o, ready)
    ensures rc.Neg? ==> |dev| == |ready.dev| && forall b :: 0 <= b < |dev| ==> dev[b] == ZeroBlock()
  {
    hide Bootstrap;
    dev := ready.dev;
    ghost var rest := if |dev| > DATA_START then dev[DATA_START..] else [];
    for reserved := 0 to DATA_START
      invariant reserved <= |dev| && |dev| == (if |ready.dev| < reserved then reserved else |ready.dev|)
      invariant isBlock ==> reserved <= |ready.dev|
      invariant forall b :: 0 <= b < reserved ==> dev[b] == ZeroBlock()
      invariant |dev| > DATA_START ==> dev[DATA_START..] == rest
    {
      var w := WriteAll(dev, isBlock, reserved, ZeroBlock());
      if w.Err? {
        return Neg(w.error), dev;
      }
      assert |dev| > DATA_START ==> w.value[DATA_START..] == dev[DATA_START..];
      dev := w.value;
    }
    var boot := Bootstrap(o, ready.blocks);
    BootstrapLength(o, ready.blocks);
    ghost var zeroed := dev;
    BootstrapStarts(o, ready.blocks, dev);
    for b := SUPER_BLOCK to DATA_START
      invariant |dev| == |zeroed| && dev == boot[..b] + zeroed[b..]
    {
      PrefixGrows(boot, zeroed, b);
      dev := dev[b := boot[b]];
    }
    rc := Zero;
    assert zeroed[DATA_START..] == rest;
  }

  lemma BootstrapLength(o: Options, blocks: nat)
    requires DATA_START <= blocks
    ensures |Bootstrap(o, blocks)| == DATA_START
  {
  }

  lemma BootstrapStarts(o: Options, blocks: nat, dev: Device)
    requires DATA_START <= blocks && dev != [] && dev[POOL_LABEL_BLOCK] == ZeroBlock()
    ensures dev == Bootstrap(o, blocks)[..SUPER_BLOCK] + dev[SUPER_BLOCK..]
  {
  }

  lemma PrefixGrows(boot: seq<Block>, dev: Device, b: nat)
    requires b < |boot| <= |dev|
    ensures (boot[..b] + dev[b..])[b := boot[b]] == boot[..b + 1] + dev[b + 1..]
  {
    var l, r := (boot[..b] + dev[b..])[b := boot[b]], boot[..b + 1] + dev[b + 1..];
    forall i | 0 <= i < |l|
      ensures l[i] == r[i]
    {
    }
  }

  // --------------------------------------------------------------------------- the own checks

  /** The checks `aetherfs_run_mkfs` makes after writing, in its order. */
  function OwnChecks(dev: Device, blocks: nat): Rc
    requires DATA_START <= |dev| && DATA_START <= blocks
  {
    var super := CheckNewSuper(SuperOf(dev[SUPER_BLOCK]), blocks);
    if super.Neg? then super else
    var inode := CheckNewInode(dev[ROOT_INODE_BLOCK][..512]);
    if inode.Neg? then inode else
    var dir := CheckNewDir(dev[ROOT_DIR_BLOCK]);
    if dir.Neg? then dir else
    var journal := CheckNewJournal(JournalOf(dev[JOURNAL_BLOCK]));
    if journal.Neg? then journal else
    var bitmap := CheckNewBitmap(dev[INODE_BITMAP_BLOCK]);
    if bitmap.Neg? then bitmap else
    var free := CheckNewFree(dev[FREE_EXTENT_BLOCK], blocks);
    if free.Neg? then free else
    CheckNewCheckpoint(dev[CHECKPOINT_BLOCK], blocks)
  }

  lemma NewFreePasses(blocks: nat)
    requires DATA_START <= blocks < U64
    ensures CheckNewFree(InitFree(blocks), blocks) == if blocks == DATA_START then Neg(EINVAL) else Zero
  {
    hide InitFree, Sealed, NodeNext, NodeCount, ExtentStart, ExtentLen;
    InitFreeReads(blocks);
    var f := InitFree(blocks);
    assert NewFreeRun(f, blocks, 0) == Ok(FreeRun(0, DATA_START));
    assert NewFreeRun(f, blocks, 1) == if blocks == DATA_START then Err(EINVAL) else Ok(FreeRun(blocks - DATA_START, blocks));
  }

  /** mkfs finds no fault with its own work, except that it rejects the image of
      exactly eight blocks, whose free extent is empty. */
  lemma OwnChecksPass(o: Options, blocks: nat, dev: Device)
    requires DATA_START <= blocks < U64 && DATA_START <= |dev| && dev[..DATA_START] == Bootstrap(o, blocks)
    ensures OwnChecks(dev, blocks) == if blocks == DATA_START then Neg(EINVAL) else Zero
  {
    hide InitSuper, InitInode, InitDir, InitJournal, InitBitmap, InitFree, InitCheckpoint, Sealed, JournalSealed, Get16, Get32, Get64,
      GroupCount, CheckNewFree, EntryChecksum, CountSet, FirstBitOnly, Padded;
    BootstrapBlocks(o, blocks, dev);
    InitSuperReads(o, blocks);
    InitInodeReads(o);
    InitDirReads();
    InitJournalReads();
    InitBitmapReads();
    OneBitCounted(InitBitmap(), 4080);
    NewFreePasses(blocks);
    InitCheckpointReads(InitSuper(o, blocks), blocks);
    PaddedPrefixes(InitSuper(o, blocks), InitJournal());
    PaddedInode(InitInode(o));
  }

  lemma PaddedInode(i: Inode)
    ensures Padded(i)[..512] == i
  {
  }

  lemma BootstrapBlocks(o: Options, blocks: nat, dev: Device)
    requires DATA_START <= blocks && DATA_START <= |dev| && dev[..DATA_START] == Bootstrap(o, blocks)
    ensures dev[POOL_LABEL_BLOCK] == ZeroBlock() && dev[SUPER_BLOCK] == Padded(InitSuper(o, blocks))
    ensures dev[ROOT_INODE_BLOCK] == Padded(InitInode(o)) && dev[ROOT_DIR_BLOCK] == InitDir()
    ensures dev[JOURNAL_BLOCK] == Padded(InitJournal()) && dev[INODE_BITMAP_BLOCK] == InitBitmap()
    ensures dev[FREE_EXTENT_BLOCK] == InitFree(blocks) && dev[CHECKPOINT_BLOCK] == InitCheckpoint(InitSuper(o, blocks), blocks)
  {
    hide InitSuper, InitInode, InitDir, InitJournal, InitBitmap, InitFree, InitCheckpoint, Padded;
    var boot := Bootstrap(o, blocks);
    forall b | 0 <= b < DATA_START
      ensures dev[b] == boot[b]
    {
      assert dev[..DATA_START][b] == dev[b];
    }
  }

  // --------------------------------------------------------------------------- the new image

  /** The image a formatted device holds. */
  function NewImage(o: Options, blocks: nat): Image
    requires DATA_START <= blocks
  {
    var s := InitSuper(o, blocks);
    Image(blocks, s, InitCheckpoint(s, blocks), InitJournal(), InitBitmap(), InitFree(blocks), Padded(InitInode(o)), InitDir())
  }

  lemma NewInodes(o: Options, blocks: nat, i: nat)
    requires DATA_START <= blocks && i < MAX_INODES
    ensures InodeAt(NewImage(o, blocks), i) == if i == 0 then InitInode(o) else Zeros(512)
  {
    hide InitSuper, InitInode, InitDir, InitJournal, InitBitmap, InitFree, InitCheckpoint;
    if 0 < i < INODES_READ {
      assert Padded(InitInode(o))[INODE_SIZE * i..INODE_SIZE * i + INODE_SIZE] == Zeros(512);
    } else if i == 0 {
      PaddedInode(InitInode(o));
    }
  }

  /** The inode walk finds the root directory and nothing else. */
  lemma {:induction false} NewScans(rd: Reader, o: Options, blocks: nat, n: nat)
    requires DATA_START <= blocks < U64 && n <= MAX_INODES
    ensures ScanInodes(rd, NewImage(o, blocks), {}, n) ==
            Ok(Scan([Interval(ROOT_DIR_BLOCK, 1)], 0, if n == 0 then 0 else 1, 0))
    decreases n
  {
    hide InitSuper, InitInode, InitDir, InitJournal, InitBitmap, InitFree, InitCheckpoint, InodeAt, Sealed, BitSet, Get16, Get64, FirstBitOnly;
    NewRootDir(o, blocks);
    if n > 0 {
      NewScans(rd, o, blocks, n - 1);
      InitBitmapReads();
      OnlyFirstBit(InitBitmap(), n - 1);
      NewInodes(o, blocks, n - 1);
      InitInodeReads(o);
      ZeroMode();
    }
  }

  lemma NewRootDir(o: Options, blocks: nat)
    requires DATA_START <= blocks < U64
    ensures RootDirBlock(NewImage(o, blocks)) == ROOT_DIR_BLOCK
  {
    hide InitSuper, InitInode, InitDir, InitJournal, InitBitmap, InitFree, InitCheckpoint, Get64, Sealed;
    InitCheckpointReads(InitSuper(o, blocks), blocks);
  }

  lemma ZeroMode()
    ensures Mode(Zeros(512)) == 0
  {
    GetZero(Zeros(512), 0, 2);
  }

  lemma NewLoaded(o: Options, blocks: nat)
    requires DATA_START <= blocks < U64
    ensures Loaded(NewImage(o, blocks))
  {
    hide InitSuper, InitInode, InitDir, InitJournal, InitBitmap, InitFree, InitCheckpoint, RootDirBlock, NodeCount, Sealed;
    NewRootDir(o, blocks);
    InitFreeReads(blocks);
  }

  /** A new image validates, whatever its data blocks hold. */
  lemma NewValidates(rd: Reader, o: Options, blocks: nat)
    requires DATA_START < blocks < U64
    ensures Loaded(NewImage(o, blocks))
    ensures var a := Validate(rd, NewImage(o, blocks)); a.Ok? && a.value.report == Report(0, 1, 1, 0, blocks - DATA_START)
  {
    hide InitSuper, InitInode, InitDir, InitJournal, InitBitmap, InitFree, InitCheckpoint, Sealed, ScanInodes, ScanDir, Validate, BitSet,
      Get32, Get64, NodeCount, NodeNext, ScanFree, RootDirBlock, FirstBitOnly, BitmapSetBits;
    var img := NewImage(o, blocks);
    NewLoaded(o, blocks);
    NewScans(rd, o, blocks, MAX_INODES);
    InitDirScans();
    NewFreeCount(o, blocks);
    InitJournalReads();
    InitBitmapReads();
    OnlyFirstBit(InitBitmap(), 0);
    NewFreeScan(blocks);
    assert Scanned(rd, img);
    NewTiles(blocks);
    assert DataUse(TheScan(rd, img)) == [];
    assert TheFree(rd, img) + [] == [Interval(DATA_START, blocks - DATA_START)];
    assert Total(TheFree(rd, img)) == blocks - DATA_START by {
      assert [Interval(DATA_START, blocks - DATA_START)][1..] == [];
    }
    ValidateExact(rd, img);
    ReportSays(rd, img);
  }

  lemma NewFreeCount(o: Options, blocks: nat)
    requires DATA_START <= blocks < U64
    ensures Get64(InitSuper(o, blocks), FREE_BLOCKS) == blocks - DATA_START
  {
    hide InitSuper, Get, Sealed, GroupCount, BlocksPerGroup, Features;
    InitSuperReads(o, blocks);
  }

  lemma NewFreeScan(blocks: nat)
    requires DATA_START < blocks < U64
    ensures NodeNext(InitFree(blocks)) == 0 && NodeCount(InitFree(blocks)) == 1
    ensures ScanFree(InitFree(blocks), blocks, 1) ==
            Ok(FreeScan([Interval(DATA_START, blocks - DATA_START)], blocks - DATA_START, blocks))
  {
    hide InitFree, Sealed, NodeNext, NodeCount, ExtentStart, ExtentLen;
    InitFreeReads(blocks);
    assert ScanFree(InitFree(blocks), blocks, 0) == Ok(FreeScan([], 0, DATA_START));
    assert [] + [Interval(DATA_START, blocks - DATA_START)] == [Interval(DATA_START, blocks - DATA_START)];
  }

  lemma NewTiles(blocks: nat)
    requires DATA_START < blocks
    ensures Tiles([Interval(DATA_START, blocks - DATA_START)], DATA_START, blocks)
  {
    var s := [Interval(DATA_START, blocks - DATA_START)];
    assert s[1..] == [];
    forall d: nat
      ensures Hits(s, d) == if DATA_START <= d < blocks then 1 else 0
    {
      assert Hits(s, d) == Holds(s[0], d) + Hits(s[1..], d);
    }
  }

  // -------------------------------------------------------------------------------- the run

  lemma FormattedStarts(o: Options, r: Ready)
    requires DATA_START <= r.blocks
    ensures var dev := Formatted(o, r);
            && |dev| == (if |r.dev| < DATA_START then DATA_START else |r.dev|)
            && dev[..DATA_START] == Bootstrap(o, r.blocks)
            && dev[DATA_START..] == (if |r.dev| > DATA_START then r.dev[DATA_START..] else [])
  {
    hide Bootstrap;
    BootstrapLength(o, r.blocks);
  }

  /** A first block without the pool magic holds no label: the device opens as a single
      image of its own size. */
  lemma UnlabelledOpens(dev: Device)
    requires dev != [] && Get32(dev[0], 0) != 0x504F4F4C
    ensures OpenImage(dev) == Ok(Single(DefaultPool(|dev|), |dev|))
  {
    hide CheckLabel, DefaultPool, Get;
    GetFrame(LabelOf(dev[0]), dev[0], 0, 4);
  }

  /** What load makes of a formatted device. */
  lemma NewLoads(rd: Reader, o: Options, blocks: nat, dev: Device, logicalBlocks: nat)
    requires DATA_START <= blocks < U64 && DATA_START <= |dev| && dev[..DATA_START] == Bootstrap(o, blocks)
    requires forall b: nat :: b < DATA_START ==> rd(b) == Ok(dev[b])
    ensures Load(rd, logicalBlocks, 1) == if blocks == logicalBlocks then Ok(NewImage(o, blocks)) else Err(EINVAL)
  {
    hide Load, InitSuper, InitInode, InitDir, InitJournal, InitBitmap, InitFree, InitCheckpoint, Sealed, JournalSealed, Get32, Get64,
      GroupCount, CountSet, FirstBitOnly, Padded, SuperOf, JournalOf;
    BootstrapBlocks(o, blocks, dev);
    InitSuperReads(o, blocks);
    InitJournalReads();
    InitBitmapReads();
    OneBitCounted(InitBitmap(), 4080);
    InitFreeReads(blocks);
    InitCheckpointReads(InitSuper(o, blocks), blocks);
    PaddedPrefixes(InitSuper(o, blocks), InitJournal());
    if blocks == logicalBlocks {
      LoadAccepts(rd, logicalBlocks, 1, NewImage(o, blocks));
    } else {
      LoadRejects(rd, logicalBlocks, 1);
    }
  }

  lemma LoadRejects(rd: Reader, logicalBlocks: nat, memberCount: nat)
    requires rd(SUPER_BLOCK).Ok? && CheckSuper(SuperOf(rd(SUPER_BLOCK).value), logicalBlocks, memberCount) == Neg(EINVAL)
    ensures Load(rd, logicalBlocks, memberCount) == Err(EINVAL)
  {
  }

  lemma NewDeviceReads(dev: Device)
    requires DATA_START <= |dev| < DEVICE_MAX && dev[POOL_LABEL_BLOCK] == ZeroBlock()
    ensures OpenImage(dev) == Ok(Single(DefaultPool(|dev|), |dev|))
    ensures forall b: nat :: b < DATA_START ==> ReaderFor(dev)(b) == Ok(dev[b])
  {
    hide CheckDevice, OpenImage, ReadBlock, ReaderFor, PoolMap.Opened, DefaultPool, Reads, LoadOf, Validate;
    GetZero(ZeroBlock(), 0, 4);
    UnlabelledOpens(dev);
    CheckDeviceExact(dev);
    forall b: nat | b < DATA_START
      ensures ReaderFor(dev)(b) == Ok(dev[b])
    {
      BootstrapReads(ReaderFor(dev), DefaultPool(|dev|), dev, b);
    }
  }

  lemma NewDeviceChecks(o: Options, blocks: nat, dev: Device)
    requires DATA_START < blocks < U64 && DATA_START <= |dev| < DEVICE_MAX && dev[..DATA_START] == Bootstrap(o, blocks)
    ensures CheckDevice(dev) == if blocks == |dev| then Ok(Report(0, 1, 1, 0, blocks - DATA_START)) else Err(EINVAL)
    ensures blocks == |dev| ==> LoadOf(dev) == Ok(NewImage(o, blocks))
  {
    hide Bootstrap, CheckDevice, OpenImage, NewImage, Validate, Load, ReadBlock, ReaderFor, PoolMap.Opened, DefaultPool, Loaded,
      InitSuper, InitInode, InitDir, InitJournal, InitBitmap, InitFree, InitCheckpoint, Padded;
    BootstrapBlocks(o, blocks, dev);
    NewDeviceReads(dev);
    NewLoads(ReaderFor(dev), o, blocks, dev, |dev|);
    if blocks == |dev| {
      NewValidates(ReaderFor(dev), o, blocks);
      DefaultProfile(|dev|);
      AcceptedReport(dev);
    } else {
      LoadFails(dev, EINVAL);
    }
  }

  /** A formatted device passes every check of the image layer exactly when it was
      formatted with its own size, and then reports one directory, one inode and
      all data blocks free. */
  lemma FormattedChecks(o: Options, r: Ready)
    requires DATA_START < r.blocks < U64 && |r.dev| < DEVICE_MAX
    ensures var dev := Formatted(o, r);
            && |dev| < DEVICE_MAX
            && CheckDevice(dev) == (if r.blocks == |dev| then Ok(Report(0, 1, 1, 0, r.blocks - DATA_START)) else Err(EINVAL))
            && (r.blocks == |dev| ==> LoadOf(dev) == Ok(NewImage(o, r.blocks)))
  {
    hide Formatted, Bootstrap, CheckDevice, NewImage, LoadOf;
    FormattedStarts(o, r);
    NewDeviceChecks(o, r.blocks, Formatted(o, r));
  }

  lemma DefaultProfile(n: nat)
    ensures DefaultPool(n).profile == PROFILE_SINGLE
  {
  }

  lemma LoadFails(dev: Device, e: Error)
    requires |dev| < DEVICE_MAX && OpenImage(dev).Ok? && LoadOf(dev) == Err(e)
    ensures CheckDevice(dev) == Err(e)
  {
    hide OpenImage, Load, PoolMap.Opened, ReadBlock;
    OpenedAttached(dev);
  }

  /** A new image can be rebalanced, and rebalance succeeds on it. */
  lemma FormattedRebalances(o: Options, r: Ready)
    requires DATA_START < r.blocks == |r.dev| < DEVICE_MAX
    ensures var dev := Formatted(o, r); RebalanceDevice.Rebalanceable(dev) && Compactible(LoadOf(dev).value)
  {
    hide Formatted, CheckDevice, Validate, Load, ReaderFor, LoadOf, IsDir, IsReg, FirstBitOnly,
      InitSuper, InitInode, InitDir, InitJournal, InitBitmap, InitFree, InitCheckpoint, InodeAt, BitSet, Get64, Sealed, OpenImage;
    var dev, img := Formatted(o, r), NewImage(o, r.blocks);
    FormattedStarts(o, r);
    FormattedChecks(o, r);
    NewValidates(ReaderFor(dev), o, r.blocks);
    InitSuperReads(o, r.blocks);
    InitBitmapReads();
    InitInodeReads(o);
    NewInodes(o, r.blocks, 0);
    DirNotReg();
    forall i | 0 <= i < MAX_INODES
      ensures !IsFile(img, i)
    {
      OnlyFirstBit(InitBitmap(), i);
    }
  }

  lemma DirNotReg()
    ensures !IsReg(DIR_MODE)
  {
  }

  lemma PrepareBounds(o: Options, count: nat, t: Target)
    requires count < U64 && |t.dev| < DEVICE_MAX
    ensures var r := Prepare(o, count, t);
            r.Ok? ==> DATA_START <= r.value.blocks < U64 && |r.value.dev| < DEVICE_MAX && (t.isBlock ==> r.value.dev == t.dev)
  {
    hide Resized;
  }

  /** An existing image that may not be overwritten. */
  predicate Protected(o: Options, t: Target) {
    t.existed && |t.dev| > 1 && Get32(t.dev[1], 0) == 0x41455448 && !o.force
  }

  /** The block count asked for, or the size of the target. */
  function Wanted(count: nat, t: Target): nat {
    if count > 0 then count else |t.dev|
  }

  /** The size of the target afterwards: a device keeps its size, a file gets the
      requested one, a 64-bit number of bytes, and at least the bootstrap area. */
  function SizeAfter(count: nat, t: Target): nat {
    if t.isBlock || count == 0 then |t.dev| else if count % ADDRESSABLE < 8 then 8 else count % ADDRESSABLE
  }

  /** A file length that cannot be set or, if none is given, is zero. */
  predicate BadLength(count: nat, t: Target) {
    !t.isBlock && if count > 0 then count % ADDRESSABLE >= DEVICE_MAX else |t.dev| == 0
  }

  /** The first n blocks of the target, with zero blocks where it has grown. */
  ghost predicate Cut(t: Target, n: nat, after: Device) {
    |after| == n && forall b :: 0 <= b < n ==> after[b] == if b < |t.dev| then t.dev[b] else ZeroBlock()
  }

  /** What preparing the target decides, said without it. */
  lemma PrepareExact(o: Options, count: nat, t: Target)
    requires count < U64 && |t.dev| < DEVICE_MAX
    ensures Protected(o, t) ==> Prepare(o, count, t) == Err(EEXIST)
    ensures !Protected(o, t) && BadLength(count, t) ==> Prepare(o, count, t) == Err(EINVAL)
    ensures !Protected(o, t) && !BadLength(count, t) && Wanted(count, t) < 8 ==> Prepare(o, count, t) == Err(ENOSPC)
    ensures Prepare(o, count, t).Ok? <==> !Protected(o, t) && !BadLength(count, t) && Wanted(count, t) >= 8
    ensures Prepare(o, count, t).Ok? ==>
              var r := Prepare(o, count, t).value;
              r.blocks == Wanted(count, t) && Cut(t, if t.isBlock || count == 0 then |t.dev| else count % ADDRESSABLE, r.dev)
  {
  }

  /** The bootstrap area is new, and every later block is as it was, or zero where the
      target has grown. */
  ghost predicate Reformatted(o: Options, blocks: nat, t: Target, after: Device) {
    && 8 <= blocks && 8 <= |after| && after[..8] == Bootstrap(o, blocks)
    && forall b :: 8 <= b < |after| ==> after[b] == if b < |t.dev| then t.dev[b] else ZeroBlock()
  }

  lemma FormattedIs(o: Options, count: nat, t: Target, ready: Ready)
    requires count < U64 && |t.dev| < DEVICE_MAX && Prepare(o, count, t) == Ok(ready) && (t.isBlock ==> |t.dev| >= 8)
    ensures |Formatted(o, ready)| == SizeAfter(count, t) && Reformatted(o, Wanted(count, t), t, Formatted(o, ready))
  {
    hide Bootstrap, Prepare;
    PrepareExact(o, count, t);
    FormattedStarts(o, ready);
    BootstrapLength(o, ready.blocks);
    var dev := Formatted(o, ready);
    forall b | 8 <= b < |dev|
      ensures dev[b] == if b < |t.dev| then t.dev[b] else ZeroBlock()
    {
      assert dev[b] == dev[8..][b - 8] == ready.dev[8..][b - 8] == ready.dev[b];
    }
  }

  /** What `ftruncate` has made of a target that then turns out too small. */
  function Truncated(count: nat, t: Target): Device {
    if t.isBlock || count == 0 then t.dev else Resized(t.dev, count % ADDRESSABLE)
  }

  /** The target can take an image. */
  predicate Formattable(o: Options, count: nat, t: Target) {
    && o.blockSize == 4096 && !Protected(o, t) && !BadLength(count, t) && Wanted(count, t) >= 8
    && (t.isBlock ==> |t.dev| >= 8)
  }

  /** `aetherfs_run_mkfs`: which targets it formats, and what the target holds afterwards,
      whether it succeeds or not. */
  method RunMkfs(o: Options, count: nat, t: Target) returns (rc: Rc, after: Device)
    requires count < U64 && |t.dev| < DEVICE_MAX
    ensures o.blockSize != 4096 ==> rc == Neg(EOPNOTSUPP) && after == t.dev
    ensures o.blockSize == 4096 && Protected(o, t) ==> rc == Neg(EEXIST) && after == t.dev
    ensures o.blockSize == 4096 && !Protected(o, t) && BadLength(count, t) ==> rc == Neg(EINVAL) && after == t.dev
    ensures o.blockSize == 4096 && !Protected(o, t) && !BadLength(count, t) && Wanted(count, t) < 8 ==>
              rc == Neg(ENOSPC) && Cut(t, if t.isBlock || count == 0 then |t.dev| else count, after)
    ensures o.blockSize == 4096 && !Protected(o, t) && t.isBlock && Wanted(count, t) >= 8 > |t.dev| ==>
              rc == Neg(ENOSPC) && |after| == |t.dev| && forall b :: 0 <= b < |after| ==> after[b] == ZeroBlock()
    ensures Formattable(o, count, t) ==>
              && rc == (if Wanted(count, t) == 8 then Neg(EINVAL) else Zero)
              && |after| == SizeAfter(count, t) < DEVICE_MAX && Reformatted(o, Wanted(count, t), t, after)
    ensures rc.Zero? ==>
              && Formattable(o, count, t) && |after| < DEVICE_MAX
              && CheckDevice(after) == (if Wanted(count, t) == |after| then Ok(Report(0, 1, 1, 0, |after| - 8)) else Err(EINVAL))
  {
    hide Formatted, CheckDevice, OwnChecks, Bootstrap, Prepare, LoadOf, NewImage, Reformatted;
    PrepareBounds(o, count, t);
    PrepareExact(o, count, t);
    after := t.dev;
    if o.blockSize != BLOCK_SIZE {
      rc := Neg(EOPNOTSUPP);
      return;
    }
    var prepared := Prepare(o, count, t);
    if prepared.Err? {
      if prepared.error == ENOSPC {
        after := Truncated(count, t);
      }
      rc := Neg(prepared.error);
      return;
    }
    var ready := prepared.value;
    rc, after := WriteBootstrap(o, ready, t.isBlock);
    if rc.Neg? {
      return;
    }
    FormattedStarts(o, ready);
    FormattedIs(o, count, t, ready);
    OwnChecksPass(o, ready.blocks, after);
    rc := OwnChecks(after, ready.blocks);
    if rc.Zero? {
      FormattedChecks(o, ready);
    }
  }
}
