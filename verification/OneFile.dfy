/** Devices with one file, of any contents: they pass every check, and rebalance
    refuses them exactly when the file is empty. */
module OneFile {
  import opened Bytes
  import opened Records
  import opened Layout
  import opened Intervals
  import opened V = Validator
  import opened ValidatorLaws
  import opened Acceptance
  import opened Loader
  import opened Packing
  import opened Compaction
  import opened PoolMap
  import opened PoolBlocks
  import opened PoolRefinement
  import opened PoolOpen
  import opened ImageCheck
  import opened SingleDevice
  import opened RebalanceRun
  import opened RebalanceTheorem
  import opened RebalanceDevice
  import opened Mkfs
  import opened MkfsRun
  import opened Ownership

  const FILE_MODE: Word16 := 0x81A4
  const FT_REG_FILE: Byte := 1
  const LETTER: Word16 := 97

  // ---------------------------------------------------------------------------- the structures

  /** The blocks of a file. */
  type Body = d: seq<Block> | |d| < DEVICE_MAX

  function FileFields(data: Body): seq<Field> {
    [Field(0, 2, FILE_MODE), Field(12, 8, 4096 * |data|), Field(20, 8, |data|), Field(52, 8, DATA_START)]
  }

  /** A regular file whose extent node is block 8. */
  function FileInode(data: Body): Inode {
    Seal(Write(Zeros(512), FileFields(data)), I_CHECKSUM)
  }

  lemma FileInodeReads(data: Body)
    ensures var i := FileInode(data);
            Sealed(i, I_CHECKSUM) && Mode(i) == FILE_MODE && ExtentRoot(i) == DATA_START && Blocks(i) == |data| && Size(i) == 4096 * |data|
  {
    hide Get, Put, Write, SelfChecksum, Sealed;
    var w := Write(Zeros(512), FileFields(data));
    Pow256Values();
    SealSeals(w, I_CHECKSUM);
    WriteGets(Zeros(512), FileFields(data), 0);
    WriteGets(Zeros(512), FileFields(data), 1);
    WriteGets(Zeros(512), FileFields(data), 2);
    WriteGets(Zeros(512), FileFields(data), 3);
    GetFrame(FileInode(data), w, 0, 2);
    GetFrame(FileInode(data), w, 12, 8);
    GetFrame(FileInode(data), w, 20, 8);
    GetFrame(FileInode(data), w, 52, 8);
  }

  function FileTable(o: Options, data: Body): Block {
    InitInode(o) + FileInode(data) + Zeros(3072)
  }

  function EmptyNode(): Block {
    Seal(ZeroBlock(), EN_CHECKSUM)
  }

  lemma EmptyNodeReads()
    ensures Sealed(EmptyNode(), EN_CHECKSUM) && NodeNext(EmptyNode()) == 0 && NodeCount(EmptyNode()) == 0
  {
    hide Get, Put, SelfChecksum, Sealed;
    SealSeals(ZeroBlock(), EN_CHECKSUM);
    GetZero(EmptyNode(), 0, 8);
    GetZero(EmptyNode(), 8, 4);
  }

  function TwoBitFields(): seq<Field> {
    [Field(4, 4, MAX_INODES), Field(8, 4, 2), Field(16, 1, 3)]
  }

  function TwoBits(): Block {
    Seal(Write(Zeros(4096), TwoBitFields()), BB_CHECKSUM)
  }

  ghost predicate FirstTwoOnly(b: Block) {
    b[16] == 3 && forall k :: 17 <= k < 4096 ==> b[k] == 0
  }

  lemma TwoBitsRead()
    ensures Sealed(TwoBits(), BB_CHECKSUM) && BitmapTotal(TwoBits()) == MAX_INODES && BitmapSetBits(TwoBits()) == 2 && FirstTwoOnly(TwoBits())
  {
    hide Put, Write, SelfChecksum, Sealed;
    var w := Write(Zeros(4096), TwoBitFields());
    Pow256Values();
    SealSeals(w, BB_CHECKSUM);
    WriteGets(Zeros(4096), TwoBitFields(), 0);
    WriteGets(Zeros(4096), TwoBitFields(), 1);
    ThirdByte(w);
    forall k | 17 <= k < 4096
      ensures w[k] == 0
    {
      WriteKeeps(Zeros(4096), TwoBitFields(), k);
    }
    GetFrame(TwoBits(), w, 4, 4);
    GetFrame(TwoBits(), w, 8, 4);
  }

  lemma ThirdByte(w: Block)
    requires w == Write(Zeros(4096), TwoBitFields())
    ensures w[16] == 3
  {
    hide Put, Write;
    WriteGets(Zeros(4096), TwoBitFields(), 2);
    assert Get(w, 16, 1) == w[16] + 256 * Get(w, 17, 0);
  }

  lemma {:induction false} TwoCounted(b: Block, n: nat)
    requires FirstTwoOnly(b) && 1 <= n <= 4080
    ensures CountSet(b, n) == 2
    decreases n
  {
    if n == 1 {
      assert CountSet(b, 0) == 0 && BitsIn(1) == 1 && BitsIn(3) == 2;
    } else {
      TwoCounted(b, n - 1);
    }
  }

  lemma OnlyTwo(b: Block, i: nat)
    requires FirstTwoOnly(b) && i < MAX_INODES
    ensures BitSet(b, i) <==> i < 2
  {
    hide Pow2;
    if i < 8 {
      assert b[16 + i / 8] == 3;
      ThreeShifted(i);
    } else {
      assert b[16 + i / 8] == 0;
      NoneShifted(i % 8);
    }
  }

  lemma ThreeShifted(k: nat)
    ensures 3 / Pow2(k) % 2 == if k < 2 then 1 else 0
  {
    if k >= 2 {
      assert Pow2(k) == 2 * Pow2(k - 1) && Pow2(k - 1) == 2 * Pow2(k - 2);
      BelowDivisor(3, Pow2(k));
    } else {
      assert Pow2(0) == 1 && Pow2(1) == 2;
    }
  }

  lemma BelowDivisor(x: nat, d: nat)
    requires x < d
    ensures x / d == 0
  {
  }

  function First(): Block {
    AddRecord(Zeros(4096), 0, ROOT_INO, 16, 1, FT_DIR, DOT)
  }

  function Second(): Block {
    AddRecord(First(), 16, ROOT_INO, 16, 2, FT_DIR, DOTS)
  }

  /** Both dot entries, and the file. */
  function Dir(): Block {
    AddRecord(Second(), 32, ROOT_INO + 1, 4064, 1, FT_REG_FILE, LETTER)
  }

  lemma DirReads()
    ensures RecordReads(Dir(), 0, ROOT_INO, 16, 1, FT_DIR, DOT) && RecordReads(Dir(), 16, ROOT_INO, 16, 2, FT_DIR, DOTS)
    ensures RecordReads(Dir(), 32, ROOT_INO + 1, 4064, 1, FT_REG_FILE, LETTER)
  {
    hide AddRecord, RecordReads;
    forall k | 0 <= k < 32
      ensures Dir()[k] == Second()[k] && (k < 16 ==> Second()[k] == First()[k])
    {
      AddRecordKeeps(Second(), 32, ROOT_INO + 1, 4064, 1, FT_REG_FILE, LETTER, k);
      if k < 16 {
        AddRecordKeeps(First(), 16, ROOT_INO, 16, 2, FT_DIR, DOTS, k);
      }
    }
    AddRecordReads(Zeros(4096), 0, ROOT_INO, 16, 1, FT_DIR, DOT, Dir());
    AddRecordReads(First(), 16, ROOT_INO, 16, 2, FT_DIR, DOTS, Dir());
    AddRecordReads(Second(), 32, ROOT_INO + 1, 4064, 1, FT_REG_FILE, LETTER, Dir());
  }

  lemma DirScans()
    ensures ScanDir(Dir(), 0, DirScan({}, false, false)) == Ok(DirScan({1}, true, true))
  {
    hide Dir, EntryIno, EntryRecLen, EntryNameLen, EntryChecksum, ScanDir;
    DirReads();
    var d := Dir();
    assert ScanEntry(d, 0, DirScan({}, false, false)) == Ok(DirScan({}, true, false));
    assert ScanEntry(d, 16, DirScan({}, true, false)) == Ok(DirScan({}, true, true));
    assert {} + {1} == {1};
    assert ScanEntry(d, 32, DirScan({}, true, true)) == Ok(DirScan({1}, true, true));
    WalkOn(d, 0, DirScan({}, false, false));
    WalkOn(d, 16, DirScan({}, true, false));
    WalkOn(d, 32, DirScan({}, true, true));
    WalkEnds(d, DirScan({1}, true, true));
  }

  lemma WalkOn(dir: Block, off: nat, s: DirScan)
    requires off + 12 <= 4096 && ScanEntry(dir, off, s).Ok?
    ensures off + EntryRecLen(dir, off) <= 4096
    ensures ScanDir(dir, off, s) == ScanDir(dir, off + EntryRecLen(dir, off), ScanEntry(dir, off, s).value)
  {
    hide EntryIno, EntryNameLen, EntryRecLen, EntryChecksum;
  }

  lemma WalkEnds(dir: Block, s: DirScan)
    requires s.dot && s.dotdot
    ensures ScanDir(dir, 4096, s) == Ok(s)
  {
  }

  // --------------------------------------------------------------------------------- the image

  /** The blocks of the file: its extent node, its data and their checksums. */
  function FileRun(data: Body): seq<Block> {
    if data == [] then [EmptyNode()] else FileImage(data, DATA_START)
  }

  /** Where the file ends. */
  function End(data: Body): nat {
    DATA_START + if data == [] then 1 else Cost(|data|)
  }

  lemma RunLength(data: Body)
    ensures DATA_START + |FileRun(data)| == End(data)
  {
    hide NodeBlock, ChainBlocks, EmptyNode;
    ChainBlocksLength(data, DATA_START + 1 + |data|);
  }

  /** The image: mkfs's superblock with less space free, and the file. */
  function FileImageOf(o: Options, blocks: nat, data: Body): Image
    requires End(data) <= blocks
  {
    var s := InitSuper(o, blocks);
    Image(blocks, NewSuper(s, blocks - End(data)), InitCheckpoint(s, blocks), InitJournal(), TwoBits(),
          NewFree(End(data), blocks), FileTable(o, data), Dir())
  }

  lemma TableInodes(o: Options, blocks: nat, data: Body, i: nat)
    requires End(data) <= blocks && i < MAX_INODES
    ensures InodeAt(FileImageOf(o, blocks, data), i) == if i == 0 then InitInode(o) else if i == 1 then FileInode(data) else Zeros(512)
  {
    hide InitSuper, InitInode, FileInode, InitJournal, TwoBits, NewFree, InitCheckpoint, Dir, NewSuper, End;
    if i < INODES_READ {
      var l, r := FileTable(o, data)[INODE_SIZE * i..INODE_SIZE * i + INODE_SIZE], if i == 0 then InitInode(o) else if i == 1 then FileInode(data) else Zeros(512);
      forall k | 0 <= k < 512
        ensures l[k] == r[k]
      {
      }
      assert l == r;
    }
  }

  /** What the file uses. */
  function UseOf(data: Body): seq<Interval> {
    if data == [] then [Interval(DATA_START, 1)] else PackedUse(DATA_START, |data|)
  }

  lemma FileScans(rd: Reader, blocks: nat, data: Body)
    requires ShowsAt(rd, DATA_START, FileRun(data)) && End(data) <= blocks < U64
    ensures ScanFile(rd, blocks, FileInode(data)) == Ok(FileScan(UseOf(data), |data|))
  {
    hide FileInode, EmptyNode, Sealed, NodeCount, NodeNext, ExtentRoot, Size, Blocks, FileImage, PackedUse, ScanFile;
    FileInodeReads(data);
    if data == [] {
      EmptyScans(rd, blocks, FileInode(data));
    } else {
      PackedScans(rd, blocks, FileInode(data), DATA_START, data);
    }
  }

  lemma EmptyScans(rd: Reader, blocks: nat, inode: Inode)
    requires ShowsAt(rd, DATA_START, [EmptyNode()]) && DATA_START < blocks
    requires ExtentRoot(inode) == DATA_START && Blocks(inode) == 0 && Size(inode) == 0
    ensures ScanFile(rd, blocks, inode) == Ok(FileScan([Interval(DATA_START, 1)], 0))
  {
    hide EmptyNode, Sealed, NodeCount, NodeNext, ExtentRoot, Size, Blocks;
    EmptyNodeReads();
    var run := [EmptyNode()];
    assert rd(DATA_START + 0) == Ok(run[0]);
    assert ScanExtents(rd, blocks, EmptyNode(), 0) == Ok(FileScan([], 0));
    assert [Interval(DATA_START, 1)] + [] == [Interval(DATA_START, 1)];
  }

  function ScanAfter(data: Body, n: nat): Scan {
    if n == 0 then Scan([Interval(ROOT_DIR_BLOCK, 1)], 0, 0, 0)
    else if n == 1 then Scan([Interval(ROOT_DIR_BLOCK, 1)], 0, 1, 0)
    else Scan([Interval(ROOT_DIR_BLOCK, 1)] + UseOf(data), 1, 1, |data|)
  }

  lemma {:induction false} InodesScan(rd: Reader, o: Options, blocks: nat, data: Body, n: nat)
    requires End(data) <= blocks < U64 && n <= MAX_INODES && ShowsAt(rd, DATA_START, FileRun(data))
    ensures ScanInodes(rd, FileImageOf(o, blocks, data), {1}, n) == Ok(ScanAfter(data, n))
    decreases n
  {
    hide InitSuper, InitInode, FileInode, InitJournal, TwoBits, NewFree, InitCheckpoint, Dir, NewSuper, FileTable, InodeAt, ScanInode, ScanFile, RootDirBlock, FileRun,
      ShowsAt, UseOf, End;
    FileRootDir(o, blocks, data);
    if n > 0 {
      InodesScan(rd, o, blocks, data, n - 1);
      InodeScans(rd, o, blocks, data, n - 1);
    }
  }

  lemma InodeScans(rd: Reader, o: Options, blocks: nat, data: Body, i: nat)
    requires End(data) <= blocks < U64 && i < MAX_INODES && ShowsAt(rd, DATA_START, FileRun(data))
    ensures ScanInode(rd, FileImageOf(o, blocks, data), {1}, i, ScanAfter(data, i)) == Ok(ScanAfter(data, i + 1))
  {
    hide InitSuper, InitInode, FileInode, InitJournal, TwoBits, NewFree, InitCheckpoint, Dir, NewSuper, FileTable, InodeAt, ScanFile, RootDirBlock,
      BitSet, Sealed, Get16, Get64, Get32, FirstTwoOnly, FileRun, ShowsAt, UseOf, End;
    FileRootDir(o, blocks, data);
    TableInodes(o, blocks, data, i);
    TwoBitsRead();
    OnlyTwo(TwoBits(), i);
    if i == 0 {
      InitInodeReads(o);
    } else if i == 1 {
      FileInodeReads(data);
      FileScans(rd, blocks, data);
    } else {
      ZeroMode();
    }
  }

  lemma FileRootDir(o: Options, blocks: nat, data: Body)
    requires End(data) <= blocks < U64
    ensures RootDirBlock(FileImageOf(o, blocks, data)) == ROOT_DIR_BLOCK
  {
    hide InitSuper, InitJournal, TwoBits, NewFree, InitCheckpoint, Dir, NewSuper, FileTable, Get64, Get32, Sealed;
    InitCheckpointReads(InitSuper(o, blocks), blocks);
  }

  lemma FileImageLoaded(o: Options, blocks: nat, data: Body)
    requires End(data) <= blocks < U64
    ensures Loaded(FileImageOf(o, blocks, data))
  {
    hide InitSuper, InitJournal, TwoBits, NewFree, InitCheckpoint, Dir, NewSuper, FileTable, RootDirBlock, NodeCount;
    FileRootDir(o, blocks, data);
    NewFreeScans(End(data), blocks);
  }

  /** The image is accepted. */
  lemma FileImageValid(rd: Reader, o: Options, blocks: nat, data: Body)
    requires End(data) <= blocks < U64 && ShowsAt(rd, DATA_START, FileRun(data))
    ensures Source(rd, FileImageOf(o, blocks, data))
  {
    hide InitSuper, InitJournal, TwoBits, NewFree, InitCheckpoint, Dir, NewSuper, FileTable, RootDirBlock, NodeCount, NodeNext, Validate, ScanInodes, ScanDir,
      ScanFree, BitSet, Get32, Get64, FirstTwoOnly, Sealed, Loaded, FileRun, ShowsAt, UseOf, Tiles;
    var img := FileImageOf(o, blocks, data);
    FileImageLoaded(o, blocks, data);
    DirScans();
    InodesScan(rd, o, blocks, data, MAX_INODES);
    InitJournalReads();
    TwoBitsRead();
    OnlyTwo(TwoBits(), 0);
    NewFreeFields(End(data), blocks);
    NewFreeScans(End(data), blocks);
    NewSuperFree(InitSuper(o, blocks), blocks - End(data));
    assert Scanned(rd, img);
    assert DataUse(TheScan(rd, img)) == UseOf(data);
    UseTiles(data);
    FreeThenUse(TheFree(rd, img), UseOf(data), End(data), blocks);
    ValidateExact(rd, img);
  }

  lemma UseTiles(data: Body)
    ensures Tiles(UseOf(data), DATA_START, End(data))
  {
    hide Tiles, PackedUse;
    if data == [] {
      TilesOne(DATA_START, 1);
    } else {
      PackedUseTiles(DATA_START, |data|);
    }
  }

  /** The file is inode 1, and rebalance can pack the image if it is not empty. */
  lemma FileImageFiles(o: Options, blocks: nat, data: Body)
    requires End(data) <= blocks < U64
    ensures InodeAt(FileImageOf(o, blocks, data), 1) == FileInode(data)
    ensures forall i :: 0 <= i < MAX_INODES ==> (IsFile(FileImageOf(o, blocks, data), i) <==> i == 1)
    ensures Compactible(FileImageOf(o, blocks, data)) <==> data != []
  {
    hide InitSuper, InitInode, FileInode, InitJournal, TwoBits, NewFree, InitCheckpoint, Dir, NewSuper, FileTable, InodeAt, BitSet, Sealed, Get16, Get64,
      FirstTwoOnly, End;
    var img := FileImageOf(o, blocks, data);
    TableInodes(o, blocks, data, 1);
    TableInodes(o, blocks, data, 0);
    TwoBitsRead();
    FileInodeReads(data);
    InitInodeReads(o);
    DirNotReg();
    forall i | 0 <= i < MAX_INODES
      ensures IsFile(img, i) <==> i == 1
    {
      OnlyTwo(TwoBits(), i);
    }
    assert IsFile(img, 1);
  }

  // -------------------------------------------------------------------------------- the device

  function FileDevice(o: Options, blocks: nat, data: Body): Device
    requires End(data) <= blocks
  {
    var s := InitSuper(o, blocks);
    [ZeroBlock(), Padded(NewSuper(s, blocks - End(data))), FileTable(o, data), Dir(), Padded(InitJournal()), TwoBits(),
     NewFree(End(data), blocks), InitCheckpoint(s, blocks)]
    + FileRun(data) + Disk(blocks - End(data))
  }

  lemma DeviceBlocks(o: Options, blocks: nat, data: Body)
    requires End(data) <= blocks
    ensures var dev, img := FileDevice(o, blocks, data), FileImageOf(o, blocks, data);
            && |dev| == blocks && dev[POOL_LABEL_BLOCK] == ZeroBlock() && dev[SUPER_BLOCK] == Padded(img.super) && dev[ROOT_INODE_BLOCK] == img.inodes
            && dev[ROOT_DIR_BLOCK] == img.rootDir && dev[JOURNAL_BLOCK] == Padded(img.journal) && dev[INODE_BITMAP_BLOCK] == img.bitmap
            && dev[FREE_EXTENT_BLOCK] == img.free && dev[CHECKPOINT_BLOCK] == img.checkpoint
            && HoldsAt(dev, DATA_START, FileRun(data))
  {
    hide InitSuper, InitJournal, TwoBits, NewFree, InitCheckpoint, Dir, NewSuper, FileTable, FileRun, Padded, End;
    RunLength(data);
  }

  lemma DeviceLoads(rd: Reader, o: Options, blocks: nat, data: Body)
    requires End(data) <= blocks < U64
    requires forall b: nat :: b < DATA_START ==> rd(b) == Ok(FileDevice(o, blocks, data)[b])
    ensures Load(rd, blocks, 1) == Ok(FileImageOf(o, blocks, data))
  {
    hide Load, InitSuper, InitJournal, TwoBits, NewFree, InitCheckpoint, Dir, NewSuper, FileTable, Sealed, JournalSealed, Get32, Get64, FileDevice, End,
      CheckSuper, CheckCheckpoint, CountSet, FirstTwoOnly, Padded, SuperOf, JournalOf, NodeCount, NodeNext;
    var img := FileImageOf(o, blocks, data);
    DeviceBlocks(o, blocks, data);
    EndPast(data);
    MkfsPasses(o, blocks);
    NewSuperPasses(InitSuper(o, blocks), blocks - End(data), blocks, 1, img.checkpoint);
    NewSuperPointers(InitSuper(o, blocks), blocks - End(data));
    InitJournalReads();
    TwoBitsRead();
    TwoCounted(TwoBits(), 4080);
    NewFreeFields(End(data), blocks);
    PaddedPrefixes(img.super, img.journal);
    LoadAccepts(rd, blocks, 1, img);
  }

  lemma MkfsPasses(o: Options, blocks: nat)
    requires DATA_START <= blocks < U64
    ensures var s := InitSuper(o, blocks);
            && CheckSuper(s, blocks, 1).Zero? && CheckCheckpoint(InitCheckpoint(s, blocks), s, blocks).Zero? && BlocksCount(s) == blocks
            && JournalAddr(s) == JOURNAL_BLOCK && RootInodeAddr(s) == ROOT_INODE_BLOCK
  {
    hide InitSuper, InitCheckpoint, Sealed, Get32, Get64, GroupCount, BlocksPerGroup, Features;
    InitSuperReads(o, blocks);
    InitCheckpointReads(InitSuper(o, blocks), blocks);
  }

  /** Inode 1 is a file with the given blocks, at blocks 9 and on. */
  ghost predicate HoldsFile(rd: Reader, img: Image, data: Body) {
    && IsFile(img, 1) && Contents(rd, InodeAt(img, 1)) == data
    && forall k :: 0 <= k < |data| ==> OwnedBy(rd, img, 1, Data(0, k), DATA_START + 1 + k)
  }

  /** On every size that can hold it, this device passes every check, its inode 1 is a
      file with the given blocks, at blocks 9 and on, and rebalance, which gives an empty
      file extent root 0, succeeds exactly when there are any. */
  lemma OneFileChecks(o: Options, blocks: nat, data: Body)
    requires End(data) <= blocks < DEVICE_MAX
    ensures var dev := FileDevice(o, blocks, data);
            && |dev| == blocks && Rebalanceable(dev) && LoadOf(dev).Ok?
            && HoldsFile(ReaderFor(dev), LoadOf(dev).value, data)
            && (Compactible(LoadOf(dev).value) <==> data != [])
  {
    hide OpenImage, Load, Validate, CheckDevice, ReaderFor, ReadBlock, PoolMap.Opened, DefaultPool, Loaded, FileDevice, FileImageOf, Reads,
      Compactible, Canonical, Reaches, FileRun, IsFile, InodeAt, HoldsFile, FileInode, End, ShowsAt;
    var dev, img := FileDevice(o, blocks, data), FileImageOf(o, blocks, data);
    EndPast(data);
    DeviceBlocks(o, blocks, data);
    NewDeviceReads(dev);
    CheckDeviceExact(dev);
    DeviceLoads(ReaderFor(dev), o, blocks, data);
    RunRead(dev, data);
    FileImageValid(ReaderFor(dev), o, blocks, data);
    FileImageFiles(o, blocks, data);
    DefaultProfile(blocks);
    FileImageCanonical(o, blocks, data);
    FileHolds(ReaderFor(dev), img, data);
  }

  lemma EndPast(data: Body)
    ensures End(data) > DATA_START
  {
  }

  lemma FileHolds(rd: Reader, img: Image, data: Body)
    requires ShowsAt(rd, DATA_START, FileRun(data)) && IsFile(img, 1) && InodeAt(img, 1) == FileInode(data)
    ensures HoldsFile(rd, img, data)
  {
    hide FileInode, EmptyNode, Sealed, NodeCount, NodeNext, ExtentRoot, ExtentStart, ExtentLen, Size, Blocks, FileImage, IsFile, InodeAt, NodeBlock, OwnedBy,
      Contents;
    FileInodeReads(data);
    if data == [] {
      EmptyContents(rd, FileInode(data));
    } else {
      CostBound(|data|);
      PackedContents(rd, FileInode(data), DATA_START, data);
      forall k | 0 <= k < |data|
        ensures OwnedBy(rd, img, 1, Data(0, k), DATA_START + 1 + k)
      {
        FileOwns(rd, img, data, k);
      }
    }
  }

  lemma EmptyContents(rd: Reader, inode: Inode)
    requires ShowsAt(rd, DATA_START, [EmptyNode()]) && ExtentRoot(inode) == DATA_START
    ensures Contents(rd, inode) == []
  {
    hide EmptyNode, Sealed, NodeCount, NodeNext, ExtentRoot;
    EmptyNodeReads();
    var run := [EmptyNode()];
    assert rd(DATA_START + 0) == Ok(run[0]);
  }

  lemma FileOwns(rd: Reader, img: Image, data: Body, k: nat)
    requires data != [] && ShowsAt(rd, DATA_START, FileImage(data, DATA_START)) && IsFile(img, 1) && InodeAt(img, 1) == FileInode(data) && k < |data|
    ensures OwnedBy(rd, img, 1, Data(0, k), DATA_START + 1 + k)
  {
    hide FileInode, Sealed, NodeCount, NodeNext, ExtentRoot, ExtentStart, ExtentLen, Size, Blocks, FileImage, IsFile, InodeAt, NodeBlock, ChainOf;
    FileInodeReads(data);
    FileImageParts(rd, DATA_START, data);
    NodeFields(DATA_START + 1, DATA_START + 1 + |data|, |data|);
  }

  lemma CostBound(n: nat)
    requires n < DEVICE_MAX
    ensures DATA_START + Cost(n) < U64
  {
  }

  lemma RunRead(dev: Device, data: Body)
    requires DATA_START < |dev| < DEVICE_MAX && OpenImage(dev) == Ok(Single(DefaultPool(|dev|), |dev|))
    requires HoldsAt(dev, DATA_START, FileRun(data))
    ensures ShowsAt(ReaderFor(dev), DATA_START, FileRun(data))
  {
    hide OpenImage, ReadBlock, FileRun, DefaultPool, PoolMap.Opened, Reaches;
    OpenedAttached(dev);
    forall k | 0 <= k < |FileRun(data)|
      ensures ReaderFor(dev)(DATA_START + k) == Ok(FileRun(data)[k])
    {
      assert dev[DATA_START..DATA_START + |FileRun(data)|][k] == dev[DATA_START + k];
      SingleReads(DefaultPool(|dev|), dev, DATA_START + k);
      DefaultReaches(|dev|, DATA_START + k);
    }
  }

  lemma DefaultReaches(n: nat, b: nat)
    requires DATA_START <= b < n < DEVICE_MAX && PoolMap.Opened(DefaultPool(n))
    ensures Reaches(DefaultPool(n), n, b)
  {
    assert (n - 8) % U64 == n - 8;
  }

  lemma FileImageCanonical(o: Options, blocks: nat, data: Body)
    requires End(data) <= blocks < DEVICE_MAX
    ensures Loaded(FileImageOf(o, blocks, data)) && Canonical(FileImageOf(o, blocks, data))
  {
    hide InitSuper, InitJournal, TwoBits, NewFree, InitCheckpoint, Dir, NewSuper, FileTable, Loaded, JournalAddr, RootInodeAddr, CheckSuper, CheckCheckpoint;
    FileImageLoaded(o, blocks, data);
    MkfsPasses(o, blocks);
    NewSuperPointers(InitSuper(o, blocks), blocks - End(data));
  }
}
