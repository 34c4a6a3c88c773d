/** A device that passes every check and whose inode table lies in the data area, so
    that rebalance refuses it. */
module Displaced {
  import opened Bytes
  import opened Layout
  import opened V = Validator
  import opened Acceptance
  import opened Loader
  import opened PoolMap
  import opened PoolBlocks
  import opened PoolRefinement
  import opened PoolOpen
  import opened ImageCheck
  import opened SingleDevice
  import opened RebalanceDevice
  import opened Mkfs
  import opened MkfsRun
  import opened OneFile

  const TABLE_ADDR: nat := 144

  /** The superblock with the inode table in block 8. */
  function Moved(s: Super): Super {
    Seal(Put(s, TABLE_ADDR, 8, DATA_START), S_CHECKSUM)
  }

  lemma MovedKeeps(s: Super, off: nat, n: nat)
    requires off + n <= 256 && (off + n <= TABLE_ADDR || TABLE_ADDR + 8 <= off) && (off + n <= S_CHECKSUM || S_CHECKSUM + 4 <= off)
    ensures Get(Moved(s), off, n) == Get(s, off, n)
  {
    hide Get, Put, SelfChecksum;
    SealSeals(Put(s, TABLE_ADDR, 8, DATA_START), S_CHECKSUM);
    GetFrame(Moved(s), s, off, n);
  }

  lemma MovedTable(s: Super)
    ensures Sealed(Moved(s), S_CHECKSUM) && RootInodeAddr(Moved(s)) == DATA_START
  {
    hide Get, Put, SelfChecksum;
    var x := Put(s, TABLE_ADDR, 8, DATA_START);
    Pow256Values();
    SealSeals(x, S_CHECKSUM);
    GetPut(s, TABLE_ADDR, 8, DATA_START);
    GetFrame(Moved(s), x, TABLE_ADDR, 8);
  }

  lemma MovedFields(s: Super)
    ensures var r := Moved(s);
            && BlocksCount(r) == BlocksCount(s) && JournalAddr(r) == JournalAddr(s) && Get64(r, FREE_BLOCKS) == Get64(s, FREE_BLOCKS)
            && Get32(r, 0) == Get32(s, 0) && Get32(r, 4) == Get32(s, 4) && Get32(r, 8) == Get32(s, 8)
            && Get32(r, 36) == Get32(s, 36) && Get64(r, 72) == Get64(s, 72) && Get32(r, 156) == Get32(s, 156)
            && Get64(r, 160) == Get64(s, 160) && Get64(r, 168) == Get64(s, 168) && Get64(r, 176) == Get64(s, 176)
            && Get64(r, 184) == Get64(s, 184)
  {
    hide Get, Moved;
    MovedKeeps(s, 12, 8);
    MovedKeeps(s, 136, 8);
    MovedKeeps(s, FREE_BLOCKS, 8);
    MovedKeeps(s, 0, 4);
    MovedKeeps(s, 4, 4);
    MovedKeeps(s, 8, 4);
    MovedKeeps(s, 36, 4);
    MovedKeeps(s, 72, 8);
    MovedKeeps(s, 156, 4);
    MovedKeeps(s, 160, 8);
    MovedKeeps(s, 168, 8);
    MovedKeeps(s, 176, 8);
    MovedKeeps(s, 184, 8);
  }

  /** The superblock and the checkpoint that mirrors it pass. */
  lemma MovedPasses(o: Options, blocks: nat)
    requires DATA_START <= blocks < U64
    ensures var s := Moved(InitSuper(o, blocks));
            CheckSuper(s, blocks, 1).Zero? && CheckCheckpoint(InitCheckpoint(s, blocks), s, blocks).Zero? && BlocksCount(s) == blocks
  {
    hide InitSuper, InitCheckpoint, Sealed, Get32, Get64, GroupCount, BlocksPerGroup, Features, Moved;
    var s := InitSuper(o, blocks);
    InitSuperReads(o, blocks);
    MovedFields(s);
    MovedTable(s);
    InitCheckpointReads(Moved(s), blocks);
  }

  function MovedImage(o: Options, blocks: nat): Image
    requires DATA_START < blocks
  {
    var s := Moved(InitSuper(o, blocks));
    NewImage(o, blocks).(super := s, checkpoint := InitCheckpoint(s, blocks))
  }

  function MovedDevice(o: Options, blocks: nat): Device
    requires DATA_START < blocks
  {
    var img := MovedImage(o, blocks);
    [ZeroBlock(), Padded(img.super), ZeroBlock(), img.rootDir, Padded(img.journal), img.bitmap, img.free, img.checkpoint, img.inodes]
    + Disk(blocks - DATA_START - 1)
  }

  lemma MovedBlocks(o: Options, blocks: nat)
    requires DATA_START < blocks
    ensures var dev, img := MovedDevice(o, blocks), MovedImage(o, blocks);
            && |dev| == blocks && dev[POOL_LABEL_BLOCK] == ZeroBlock() && dev[SUPER_BLOCK] == Padded(img.super)
            && dev[ROOT_DIR_BLOCK] == img.rootDir && dev[JOURNAL_BLOCK] == Padded(img.journal) && dev[INODE_BITMAP_BLOCK] == img.bitmap
            && dev[FREE_EXTENT_BLOCK] == img.free && dev[CHECKPOINT_BLOCK] == img.checkpoint && dev[DATA_START] == img.inodes
  {
    hide MovedImage, Padded;
  }

  lemma MovedLoads(rd: Reader, o: Options, blocks: nat)
    requires DATA_START < blocks < U64
    requires forall b: nat :: b <= DATA_START ==> rd(b) == Ok(MovedDevice(o, blocks)[b])
    ensures Load(rd, blocks, 1) == Ok(MovedImage(o, blocks))
  {
    hide Load, InitSuper, InitInode, InitDir, InitJournal, InitBitmap, InitFree, InitCheckpoint, Sealed, JournalSealed, Get32, Get64,
      CountSet, FirstBitOnly, Padded, SuperOf, JournalOf, Moved, MovedDevice, CheckSuper, CheckCheckpoint, NodeCount, NodeNext;
    var s, img := InitSuper(o, blocks), MovedImage(o, blocks);
    MovedBlocks(o, blocks);
    MovedPasses(o, blocks);
    MovedTable(s);
    MovedFields(s);
    MkfsPasses(o, blocks);
    InitJournalReads();
    InitBitmapReads();
    OneBitCounted(InitBitmap(), 4080);
    InitFreeReads(blocks);
    PaddedPrefixes(img.super, img.journal);
    LoadAccepts(rd, blocks, 1, img);
  }

  /** The scan looks at the checkpoint only for the root directory. */
  lemma {:induction false} ScanSame(rd: Reader, img: Image, img': Image, refs: set<nat>, n: nat)
    requires n <= MAX_INODES && img' == img.(super := img'.super, checkpoint := img'.checkpoint) && RootDirBlock(img') == RootDirBlock(img)
    ensures ScanInodes(rd, img', refs, n) == ScanInodes(rd, img, refs, n)
    decreases n
  {
    hide ScanFile, Sealed, BitSet, RootDirBlock, IsDir, IsReg;
    if n > 0 {
      ScanSame(rd, img, img', refs, n - 1);
    }
  }

  /** The image is accepted, whatever its data blocks hold. */
  lemma MovedValid(rd: Reader, o: Options, blocks: nat)
    requires DATA_START < blocks < U64
    ensures Loaded(MovedImage(o, blocks)) && Validate(rd, MovedImage(o, blocks)).Ok?
  {
    hide InitSuper, InitInode, InitDir, InitJournal, InitBitmap, InitFree, InitCheckpoint, Moved, RootDirBlock, NodeCount, NodeNext, BitSet, Get32, Get64,
      ScanInodes, ScanFree, ScanDir, Sealed, BitmapSetBits;
    var s, img, img' := InitSuper(o, blocks), NewImage(o, blocks), MovedImage(o, blocks);
    NewValidates(rd, o, blocks);
    NewRootDir(o, blocks);
    MovedRootDir(o, blocks);
    MovedFields(s);
    forall refs
      ensures ScanInodes(rd, img', refs, MAX_INODES) == ScanInodes(rd, img, refs, MAX_INODES)
    {
      ScanSame(rd, img, img', refs, MAX_INODES);
    }
  }

  lemma MovedRootDir(o: Options, blocks: nat)
    requires DATA_START < blocks < U64
    ensures RootDirBlock(MovedImage(o, blocks)) == ROOT_DIR_BLOCK
  {
    hide InitSuper, InitInode, InitDir, InitJournal, InitBitmap, InitFree, InitCheckpoint, Get64, Sealed, Moved;
    InitCheckpointReads(Moved(InitSuper(o, blocks)), blocks);
  }

  /** On every size from nine blocks on, this device passes every check, and its
      metadata is displaced. */
  lemma DisplacedExample(o: Options, blocks: nat)
    requires DATA_START < blocks < DEVICE_MAX
    ensures var dev := MovedDevice(o, blocks);
            && |dev| == blocks && CheckDevice(dev).Ok? && LoadOf(dev).Ok? && DisplacedMetadata(LoadOf(dev).value)
  {
    hide OpenImage, Load, Validate, CheckDevice, ReaderFor, ReadBlock, PoolMap.Opened, DefaultPool, Loaded, MovedDevice, Reads, Reaches, InitSuper,
      InitInode, InitDir, InitJournal, InitBitmap, InitFree, InitCheckpoint, Moved, RootInodeAddr, JournalAddr;
    var dev := MovedDevice(o, blocks);
    MovedBlocks(o, blocks);
    NewDeviceReads(dev);
    TableRead(dev);
    CheckDeviceExact(dev);
    MovedLoads(ReaderFor(dev), o, blocks);
    MovedValid(ReaderFor(dev), o, blocks);
    MovedTable(InitSuper(o, blocks));
    DefaultProfile(blocks);
  }

  lemma TableRead(dev: Device)
    requires DATA_START < |dev| < DEVICE_MAX && OpenImage(dev) == Ok(Single(DefaultPool(|dev|), |dev|))
    ensures ReaderFor(dev)(DATA_START) == Ok(dev[DATA_START])
  {
    hide OpenImage, ReadBlock, DefaultPool, PoolMap.Opened, Reaches;
    OpenedAttached(dev);
    SingleReads(DefaultPool(|dev|), dev, DATA_START);
    DefaultReaches(|dev|, DATA_START);
  }
}
