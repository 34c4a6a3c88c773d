/** Silent damage on a device: changing up to four consecutive bytes of any block
    of any file of an accepted device makes the next check fail. */
module DeviceCorruption {
  import opened Bytes
  import opened Masks
  import opened Crc
  import opened Layout
  import opened Intervals
  import opened V = Validator
  import opened ValidatorLaws
  import opened Acceptance
  import opened Loader
  import opened PoolMap
  import opened PoolBlocks
  import opened PoolOpen
  import opened ImageCheck
  import opened SingleDevice
  import opened SpaceBound
  import opened Corruption
  import opened Meaning
  import opened Compaction
  import opened Ownership
  import opened BurstLaws

  // ------------------------------------------------- file data is part of the used space

  lemma {:induction false} ScanExtentsHit(rd: Reader, blocks: nat, node: Block, n: nat, e: nat, d: nat)
    requires e < n <= EXTENTS_MAX && ScanExtents(rd, blocks, node, n).Ok? && InExtent(node, e, d)
    ensures Hits(ScanExtents(rd, blocks, node, n).value.used, d) >= 1
    decreases n
  {
    hide WalkChain, ExtentBad, ExtentStart, ExtentLen, ExtentSums, Hits;
    ScanExtentsStep(rd, blocks, node, n);
    var before, last := ScanExtents(rd, blocks, node, n - 1).value.used, ExtentUse(rd, blocks, node, n - 1);
    HitsConcat(before, last, d);
    if e == n - 1 {
      assert last[0] == Interval(ExtentStart(node, e), ExtentLen(node, e));
      HitCounted(last, d, 0);
    } else {
      ScanExtentsHit(rd, blocks, node, n - 1, e, d);
    }
  }

  lemma FileDataHit(rd: Reader, img: Image, i: nat, d: nat)
    requires i < MAX_INODES && FileData(rd, img, i, d) && ScanFile(rd, img.blocks, InodeAt(img, i)).Ok?
    ensures Hits(InodeUse(rd, img, i), d) >= 1
  {
    hide ScanFile, ScanExtents, Hits, InExtent, InodeAt, IsFile;
    var inode := InodeAt(img, i);
    ScanFileParts(rd, img.blocks, inode);
    var root := ExtentRoot(inode);
    var node := rd(root).value;
    var e :| 0 <= e < EXTENTS_MAX && e < NodeCount(node) && InExtent(node, e, d);
    ScanExtentsHit(rd, img.blocks, node, NodeCount(node), e, d);
    HitsConcat([Interval(root, 1)], ScanExtents(rd, img.blocks, node, NodeCount(node)).value.used, d);
  }

  lemma {:induction false} ScanInodesHit(rd: Reader, img: Image, refs: set<nat>, n: nat, i: nat, d: nat)
    requires i < n <= MAX_INODES && img.blocks < U64 && ScanInodes(rd, img, refs, n).Ok? && FileData(rd, img, i, d)
    ensures Hits(DataUse(ScanInodes(rd, img, refs, n).value), d) >= 1
    decreases n
  {
    hide ScanInode, InodeUse, Hits, FileData, ScanFile, InodeAt;
    ScanInodesStep(rd, img, refs, n);
    ScanInodesInData(rd, img, refs, n - 1);
    var before, last := ScanInodes(rd, img, refs, n - 1).value, InodeUse(rd, img, n - 1);
    assert (before.used + last)[1..] == before.used[1..] + last;
    HitsConcat(before.used[1..], last, d);
    if i == n - 1 {
      ScanInodeParts(rd, img, refs, i, before);
      FileDataFile(rd, img, i, d);
      FileDataHit(rd, img, i, d);
    } else {
      ScanInodesHit(rd, img, refs, n - 1, i, d);
    }
  }

  lemma FileDataFile(rd: Reader, img: Image, i: nat, d: nat)
    requires i < MAX_INODES && FileData(rd, img, i, d)
    ensures IsFile(img, i)
  {
  }

  /** The blocks of a file lie in the data area and can be read. */
  lemma FileDataPlace(rd: Reader, img: Image, i: nat, d: nat)
    requires Loaded(img) && Validate(rd, img).Ok? && i < MAX_INODES && FileData(rd, img, i, d)
    ensures DATA_START <= d < img.blocks && rd(d).Ok?
  {
    hide Validate, Scanned, ScanInodes, Hits, FileData, Get64;
    AcceptedConserves(rd, img);
    ScannedInodes(rd, img);
    ScanInodesHit(rd, img, Refs(img), MAX_INODES, i, d);
    ScanInodesRead(rd, img, Refs(img), MAX_INODES);
  }

  // ------------------------------------------------------------------------- the theorem

  /** The superblock puts neither the inode table nor the journal at block d (nor
      past the last addressable block, where offsets wrap onto others). */
  predicate PlainBlock(img: Image, d: nat)
    requires |img.super| == SUPER_SIZE
  {
    d != JournalAddr(img.super) < DEVICE_MAX && d != RootInodeAddr(img.super) < DEVICE_MAX
  }

  lemma SameRead(p: Pool, dev: Device, dev': Device, b: nat)
    requires OnDevice(p, dev) && OnDevice(p, dev') && |dev| == |dev'| && b < DEVICE_MAX
    requires b < |dev| ==> dev[b] == dev'[b]
    ensures ReadBlock(p, [dev], {}, b) == ReadBlock(p, [dev'], {}, b)
  {
    hide MapData, Effective;
    OneMember(p);
    CellOfExact(b);
    if b < DATA_START {
      assert ReadFirst(p, [dev], {}, [0], 0, b) == ReadFirst(p, [dev'], {}, [0], 0, b);
    } else {
      OneMemberMaps(p, b);
    }
  }

  /** A device with block d replaced reads the same everywhere else. */
  lemma OneBlockDiffers(dev: Device, d: nat, v: Block)
    requires 0 < d < |dev| < DEVICE_MAX && OpenImage(dev).Ok? && ReaderFor(dev)(d).Ok?
    ensures OpenImage(SetBlock(dev, d, v)) == OpenImage(dev)
    ensures ReaderFor(dev)(d) == Ok(dev[d]) && ReaderFor(SetBlock(dev, d, v))(d) == Ok(v)
    ensures forall b: nat :: b < DEVICE_MAX && b != d ==> ReaderFor(dev)(b) == ReaderFor(SetBlock(dev, d, v))(b)
  {
    hide OpenImage, PoolMap.Opened, ReadBlock, Reaches, Attached;
    var dev' := SetBlock(dev, d, v);
    OpenSame(dev, dev');
    OpenedAttached(dev);
    OpenedAttached(dev');
    var p := OpenImage(dev).value.pool;
    SingleReads(p, dev, d);
    SingleReads(p, dev', d);
    forall b: nat | b < DEVICE_MAX && b != d
      ensures ReadBlock(p, [dev], {}, b) == ReadBlock(p, [dev'], {}, b)
    {
      SameRead(p, dev, dev', b);
    }
  }

  /** Burst damage to file data is found on every accepted single-device image. */
  lemma BurstOnDeviceDetected(dev: Device, i: nat, d: nat, v: Block, at: nat, w: nat)
    requires |dev| < DEVICE_MAX && CheckDevice(dev).Ok? && LoadOf(dev).Ok? && i < MAX_INODES
    requires var img := LoadOf(dev).value;
             img.blocks <= DEVICE_MAX && FileData(ReaderFor(dev), img, i, d) && (|img.super| == SUPER_SIZE ==> PlainBlock(img, d))
    requires d < |dev| && DifferWithin(dev[d], v, at, w) && w <= 4 && v != dev[d]
    ensures CheckDevice(SetBlock(dev, d, v)) == Err(EILSEQ)
  {
    hide OpenImage, Load, Validate, CheckDevice, CheckOpened, ReaderFor, FileData, PoolMap.Opened, Reads, DataChecksum, ReadBlock, JournalAddr, RootInodeAddr,
      DifferWithin, CheckSuper, CheckCheckpoint, CheckBitmap, JournalSealed, Sealed, SuperOf, JournalOf, Attached;
    var dev', img := SetBlock(dev, d, v), LoadOf(dev).value;
    var rd, rd' := ReaderFor(dev), ReaderFor(dev');
    CheckDeviceExact(dev);
    FileDataPlace(rd, img, i, d);
    OneBlockDiffers(dev, d, v);
    var blocks := OpenImage(dev).value.blocks;
    LoadSurvives(rd, rd', blocks, d);
    BurstInFileDetected(rd, rd', img, i, d, at, w);
    RejectedDevice(dev', img, EILSEQ);
  }

  lemma LoadSurvives(rd: Reader, rd': Reader, logicalBlocks: nat, d: nat)
    requires Load(rd, logicalBlocks, 1).Ok? && DATA_START <= d
    requires forall b: nat :: b < DEVICE_MAX && b != d ==> rd(b) == rd'(b)
    requires var img := Load(rd, logicalBlocks, 1).value; |img.super| == SUPER_SIZE ==> PlainBlock(img, d)
    ensures Load(rd', logicalBlocks, 1) == Load(rd, logicalBlocks, 1)
  {
    hide Load, JournalAddr, RootInodeAddr, CheckSuper, CheckCheckpoint, CheckBitmap, JournalSealed, Sealed, SuperOf, JournalOf;
    LoadParts(rd, logicalBlocks, 1);
    LoadFrame(rd, rd', logicalBlocks, 1);
  }

  lemma RejectedDevice(dev: Device, img: Image, e: Error)
    requires |dev| < DEVICE_MAX && OpenImage(dev).Ok? && LoadOf(dev) == Ok(img) && Loaded(img)
    requires Validate(ReaderFor(dev), img) == Err(e)
    ensures CheckDevice(dev) == Err(e)
  {
    hide OpenImage, Load, Validate, PoolMap.Opened, ReadBlock;
    OpenedAttached(dev);
  }

  // ------------------------------------------------------------- images of every size

  /** No block of the chain that holds the sum of block d shares its cell with d: byte
      offsets wrap at block 2^52. */
  ghost predicate ChainElsewhere(rd: Reader, img: Image, i: nat, e: nat, d: nat)
    requires i < MAX_INODES && e < EXTENTS_MAX
  {
    forall x :: x in ChainOf(rd, img.blocks, NodeOf(rd, InodeAt(img, i)), e) ==> x % ADDRESSABLE != d % ADDRESSABLE
  }

  /** Up to 2^52 blocks that is so. */
  lemma ChainsApart(rd: Reader, img: Image, i: nat, e: nat, k: nat, d: nat)
    requires Source(rd, img) && img.blocks <= ADDRESSABLE && i < MAX_INODES && e < EXTENTS_MAX && OwnedBy(rd, img, i, Data(e, k), d)
    ensures ChainElsewhere(rd, img, i, e, d)
  {
    hide Validate, InodeAt, IsFile, NodeOf, ChainOf, NodeCount, ExtentRoot, Loaded, Source;
    var chain := ChainOf(rd, img.blocks, NodeOf(rd, InodeAt(img, i)), e);
    OwnedInside(rd, img, i, Data(e, k), d);
    forall x | x in chain
      ensures x % ADDRESSABLE != d % ADDRESSABLE
    {
      var j :| 0 <= j < |chain| && chain[j] == x;
      assert OwnedBy(rd, img, i, Sum(e, j), x);
      OwnedInside(rd, img, i, Sum(e, j), x);
      OneOwner(rd, img, i, Data(e, k), Sum(e, j), d, x);
    }
  }

  lemma OneOwner(rd: Reader, img: Image, i: nat, p: Place, q: Place, d: nat, x: nat)
    requires Source(rd, img) && OwnedBy(rd, img, i, p, d) && OwnedBy(rd, img, i, q, x) && p != q
    ensures d != x
  {
    hide Validate, OwnedBy, Loaded;
    if d == x {
      OwnerUnique(rd, img, i, p, i, q, d);
    }
  }

  /** A data block of an accepted file can be read. */
  lemma OwnedReads(rd: Reader, img: Image, i: nat, e: nat, k: nat, d: nat)
    requires Source(rd, img) && i < MAX_INODES && e < EXTENTS_MAX && OwnedBy(rd, img, i, Data(e, k), d)
    ensures DATA_START <= d < img.blocks && rd(d).Ok?
  {
    hide Validate, InodeAt, IsFile, ExtentGood, Sealed, SizeBad, LenSum, ExtentStart, ExtentLen, NodeCount, NodeNext, ExtentRoot, Loaded;
    AcceptedFile(rd, img, i);
    var node := rd(ExtentRoot(InodeAt(img, i))).value;
    assert InExtent(node, e, d);
    FileDataPlace(rd, img, i, d);
  }

  /** A single device reads, block for block, what its cells hold. */
  lemma DevicesAlike(dev: Device, c: nat, v: Block)
    requires c < |dev| < DEVICE_MAX && OpenImage(dev).Ok? && OpenImage(SetBlock(dev, c, v)).Ok?
    ensures Alike(ReaderFor(dev), ReaderFor(SetBlock(dev, c, v)), dev[c], v)
    ensures forall b: nat :: ReaderFor(dev)(b).Ok? && ReaderFor(SetBlock(dev, c, v))(b).Ok? && b % ADDRESSABLE != c ==>
                               ReaderFor(dev)(b) == ReaderFor(SetBlock(dev, c, v))(b)
    ensures forall b: nat :: ReaderFor(dev)(b).Ok? && b % ADDRESSABLE == c ==> ReaderFor(dev)(b) == Ok(dev[c])
    ensures forall b: nat :: ReaderFor(SetBlock(dev, c, v))(b).Ok? && b % ADDRESSABLE == c ==> ReaderFor(SetBlock(dev, c, v))(b) == Ok(v)
  {
    hide OpenImage, PoolMap.Opened, ReadBlock, MapData;
    var dev' := SetBlock(dev, c, v);
    OpenedAttached(dev);
    OpenedAttached(dev');
    var p, p' := OpenImage(dev).value.pool, OpenImage(dev').value.pool;
    forall b: nat
      ensures ReadBlock(p, [dev], {}, b).Ok? ==> b % ADDRESSABLE < |dev| && ReadBlock(p, [dev], {}, b) == Ok(dev[b % ADDRESSABLE])
      ensures ReadBlock(p', [dev'], {}, b).Ok? ==> b % ADDRESSABLE < |dev| && ReadBlock(p', [dev'], {}, b) == Ok(dev'[b % ADDRESSABLE])
    {
      SingleReadsExact(p, dev, b);
      SingleReadsExact(p', dev', b);
    }
  }

  /** Burst damage to file data is rejected whatever else the damaged cell is: the pool
      label, bootstrap blocks and other files that wrap to it, or what the superblock
      names as inode table or journal. */
  lemma BurstOnDeviceRejected(dev: Device, i: nat, e: nat, k: nat, d: nat, v: Block, at: nat, w: nat)
    requires |dev| < DEVICE_MAX && CheckDevice(dev).Ok? && LoadOf(dev).Ok? && i < MAX_INODES && e < EXTENTS_MAX
    requires OwnedBy(ReaderFor(dev), LoadOf(dev).value, i, Data(e, k), d) && ChainElsewhere(ReaderFor(dev), LoadOf(dev).value, i, e, d)
    requires var c := d % ADDRESSABLE; c < |dev| && DifferWithin(dev[c], v, at, w) && v != dev[c]
    requires w <= 4
    ensures CheckDevice(SetBlock(dev, d % ADDRESSABLE, v)).Err?
  {
    hide OpenImage, Load, Validate, CheckDevice, ReaderFor, PoolMap.Opened, Reads, DifferWithin, Attached, Loaded, OwnedBy, Alike, NodeOf, ChainOf, InodeAt;
    var c := d % ADDRESSABLE;
    var dev', img := SetBlock(dev, c, v), LoadOf(dev).value;
    var rd, rd' := ReaderFor(dev), ReaderFor(dev');
    CheckDeviceExact(dev);
    CheckDeviceExact(dev');
    OwnedReads(rd, img, i, e, k, d);
    if OpenImage(dev').Ok? {
      DevicesAlike(dev, c, v);
      BurstRejected(rd, rd', OpenImage(dev).value.blocks, 1, OpenImage(dev').value.blocks, 1, i, e, k, d, v, at, w);
    }
  }
}
