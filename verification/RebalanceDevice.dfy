/** `aetherfs_run_rebalance` on a device, and its guarantee. */
module RebalanceDevice {
  import opened Bytes
  import opened Layout
  import opened Intervals
  import opened V = Validator
  import opened Acceptance
  import opened Loader
  import opened Packing
  import opened SpaceBound
  import opened Compaction
  import opened PoolMap
  import opened PoolBlocks
  import opened PoolOpen
  import opened ImageCheck
  import opened SingleDevice
  import opened RebalanceRun
  import opened RebalanceTheorem
  import opened DirectoryLaws
  import opened Meaning
  import Crc
  import opened ValidatorLaws

  // --------------------------------------------------------------- device-level views

  /** An accepted device whose image rebalance can find again. */
  ghost predicate Rebalanceable(dev: Device) {
    && |dev| < DEVICE_MAX && CheckDevice(dev).Ok?
    && LoadOf(dev).Ok? && Loaded(LoadOf(dev).value) && Validate(ReaderFor(dev), LoadOf(dev).value).Ok?
    && Canonical(LoadOf(dev).value)
  }

  // --------------------------------------------------------------------- the guarantee

  /** fin is a finished target of source dev: its files are packed, its records are
      closed, and blocks from `next_block` on do not matter. */
  ghost predicate FinishedFrom(dev: Device, t0: Device, t: Device, table: Block, fin: Device)
    requires Rebalanceable(dev)
  {
    var img := LoadOf(dev).value;
    && Fresh(dev, t0) && Next(img, MAX_INODES) <= img.blocks
    && Progress(ReaderFor(dev), img, t0, t, table, MAX_INODES)
    && Finished(t, img, table, Next(img, MAX_INODES), fin)
  }

  lemma TargetOpens(dev: Device, t0: Device, t: Device, table: Block, fin: Device)
    requires Rebalanceable(dev) && FinishedFrom(dev, t0, t, table, fin)
    ensures |fin| == |dev| && OpenImage(fin) == OpenImage(dev) && Fresh(dev, t)
  {
    hide OpenImage, Load, Validate, CheckDevice, Next, FileImage, Contents, PackedInode, LoadOf, ReaderFor, NewFree, NewSuper, NewJournal, Padded;
    FreshSame(dev, t0, 0);
    assert t[..DATA_START][0] == t0[..DATA_START][0];
    OpenSame(dev, fin);
  }

  /** A finished target loads as the packed image and shows every file packed. */
  lemma TargetImage(dev: Device, t0: Device, t: Device, table: Block, fin: Device)
    requires Rebalanceable(dev) && FinishedFrom(dev, t0, t, table, fin)
    ensures |fin| == |dev| && |fin| < DEVICE_MAX && OpenImage(fin) == OpenImage(dev)
    ensures var img := LoadOf(dev).value;
            && Next(img, MAX_INODES) <= img.blocks && LoadOf(fin) == Ok(PackedImage(img, table))
            && FilesPacked(ReaderFor(dev), img, ReaderFor(fin), MAX_INODES) && TableOf(img, table)
  {
    hide OpenImage, Load, Validate, CheckDevice, Next, Reads, ReaderFor, Progress, Finished, Fresh, Loaded, TableOf, FilesPacked,
      PackedImage, PoolMap.Opened;
    var img, rd, rd' := LoadOf(dev).value, ReaderFor(dev), ReaderFor(fin);
    CheckDeviceExact(dev);
    TargetOpens(dev, t0, t, table, fin);
    CheckDeviceExact(fin);
    var o := OpenImage(dev).value;
    FreshSizes(dev, t0);
    PlanReached(o.pool, dev, rd, img);
    FreshLength(dev, t0);
    FinishedPacked(o.pool, dev, rd, t0, t, img, table, fin, rd');
    NothingOutstanding(rd, img);
    FinishedLoads(o.pool, dev, rd, t, img, table, fin, rd', o.blocks);
  }

  /** The check of a finished target succeeds exactly when the source is
      compactible, and then the target holds the same files and can be rebalanced
      again. */
  lemma TargetChecks(dev: Device, t0: Device, t: Device, table: Block, fin: Device)
    requires Rebalanceable(dev) && FinishedFrom(dev, t0, t, table, fin)
    ensures |fin| == |dev| && |fin| < DEVICE_MAX && OpenImage(fin) == OpenImage(dev)
    ensures CheckDevice(fin).Ok? <==> Compactible(LoadOf(dev).value)
    ensures CheckDevice(fin).Ok? ==>
              && LoadOf(fin).Ok? && Compacted(ReaderFor(dev), LoadOf(dev).value, ReaderFor(fin), LoadOf(fin).value)
              && Rebalanceable(fin) && Compactible(LoadOf(fin).value)
  {
    hide OpenImage, LoadOf, Validate, CheckDevice, Next, Reads, ReaderFor, Loaded, TableOf, FilesPacked, FinishedFrom,
      PackedImage, Compactible, Compacted, PoolMap.Opened, Canonical;
    var img := LoadOf(dev).value;
    CheckDeviceExact(dev);
    TargetImage(dev, t0, t, table, fin);
    CheckDeviceExact(fin);
    FinishedChecks(ReaderFor(dev), img, ReaderFor(fin), table);
    if Compactible(img) {
      PackedAgain(img, table);
    }
  }

  lemma NothingOutstanding(rd: Reader, img: Image)
    requires Source(rd, img)
    ensures Get32(img.journal, 36) == 0
  {
  }

  lemma FreshLength(dev: Device, t: Device)
    requires Fresh(dev, t)
    ensures |t| == |dev|
  {
  }

  // ------------------------------------------------------------------------ the prefix

  /** `aetherfs_copy_prefix_to_device`: the first n blocks of the target over the
      device. */
  method CopyPrefix(rd: Reader, p: Pool, fin: Device, dev: Device, n: nat) returns (r: Result<Device>)
    requires Reads(rd, p, fin) && |fin| == |dev| < DEVICE_MAX
    ensures r.Ok? ==> n <= |dev| && r.value == fin[..n] + dev[n..]
    ensures (forall b: nat :: b < n ==> rd(b).Ok?) && n <= |dev| ==> r.Ok?
  {
    hide Reaches, PoolMap.Opened;
    var t := dev;
    var blocknr: nat := 0;
    while blocknr < n
      invariant blocknr <= n && blocknr <= |dev| && |t| == |dev|
      invariant t == fin[..blocknr] + dev[blocknr..]
    {
      var block := rd(blocknr);
      if block.Err? || blocknr >= |dev| {
        return Err(EIO);
      }
      assert block.value == fin[blocknr];
      PrefixStep(fin, dev, blocknr);
      t := SetBlock(t, blocknr, block.value);
      blocknr := blocknr + 1;
    }
    r := Ok(t);
  }

  lemma PrefixStep(fin: Device, dev: Device, b: nat)
    requires b < |fin| == |dev|
    ensures SetBlock(fin[..b] + dev[b..], b, fin[b]) == fin[..b + 1] + dev[b + 1..]
  {
    var l, r := SetBlock(fin[..b] + dev[b..], b, fin[b]), fin[..b + 1] + dev[b + 1..];
    forall i | 0 <= i < |l|
      ensures l[i] == r[i]
    {
    }
  }

  /** Only the blocks below `next_block` matter: the device with that prefix of the
      target is as finished as the target. */
  lemma PrefixSuffices(dev: Device, t0: Device, t: Device, table: Block, fin: Device, dev': Device)
    requires Rebalanceable(dev) && FinishedFrom(dev, t0, t, table, fin)
    requires var next := Next(LoadOf(dev).value, MAX_INODES); next <= |dev| && |fin| == |dev| && dev' == fin[..next] + dev[next..]
    ensures var next := Next(LoadOf(dev).value, MAX_INODES);
            next <= |t| == |dev| && FinishedFrom(dev, t0, t[..next] + dev[next..], table, dev')
  {
    hide OpenImage, Load, Validate, CheckDevice, Next, LoadOf, ReaderFor, PackedInode, NewFree, NewSuper, NewJournal,
      Padded, FileImage, Contents, Canonical, Loaded;
    var img, rd := LoadOf(dev).value, ReaderFor(dev);
    var next := Next(img, MAX_INODES);
    var t' := t[..next] + dev[next..];
    NextStarts(img, MAX_INODES);
    PrefixProgress(dev, rd, img, t0, t, table, t', next);
    forall b | 0 <= b < |t'|
      ensures dev'[b] == FinishedBlock(img, table, next, b, t'[b])
    {
    }
  }

  lemma PrefixProgress(dev: Device, rd: Reader, img: Image, t0: Device, t: Device, table: Block, t': Device, next: nat)
    requires Progress(rd, img, t0, t, table, MAX_INODES) && Source(rd, img) && next == Next(img, MAX_INODES)
    requires DATA_START <= next <= |t| == |dev| && t' == t[..next] + dev[next..]
    ensures Progress(rd, img, t0, t', table, MAX_INODES)
  {
    hide Validate, Next, FileImage, Contents, PackedInode, IsFile, InodeAt;
    PrefixSlice(t, dev, next, 0, DATA_START);
    forall j | 1 <= j < MAX_INODES && IsFile(img, j) && Blocks(InodeAt(img, j)) > 0
      ensures HoldsAt(t', Next(img, j), FileImage(Contents(rd, InodeAt(img, j)), Next(img, j)))
    {
      SourceFile(rd, img, j);
      FileImageLength(Contents(rd, InodeAt(img, j)), Next(img, j));
      NextMonotone(img, j, MAX_INODES);
      assert HoldsAt(t, Next(img, j), FileImage(Contents(rd, InodeAt(img, j)), Next(img, j)));
      PrefixSlice(t, dev, next, Next(img, j), Next(img, j) + Cost(Blocks(InodeAt(img, j))));
    }
  }

  lemma PrefixSlice(t: Device, dev: Device, next: nat, lo: nat, hi: nat)
    requires lo <= hi <= next <= |t| == |dev|
    ensures (t[..next] + dev[next..])[lo..hi] == t[lo..hi]
  {
    var l, r := (t[..next] + dev[next..])[lo..hi], t[lo..hi];
    forall i | 0 <= i < |l|
      ensures l[i] == r[i]
    {
    }
  }

  /** Rebalancing a rebalanced device changes nothing that its check reports. */
  lemma RebalanceTwice(dev: Device, once: Device, twice: Device)
    requires Rebalanceable(dev) && Rebalanceable(once) && Rebalanceable(twice)
    requires Compacted(ReaderFor(dev), LoadOf(dev).value, ReaderFor(once), LoadOf(once).value)
    requires Compacted(ReaderFor(once), LoadOf(once).value, ReaderFor(twice), LoadOf(twice).value)
    ensures CheckDevice(twice) == CheckDevice(once)
  {
    hide OpenImage, LoadOf, Validate, CheckDevice, Next, ReaderFor, RootDirBlock, NodeCount, Canonical, Reads, PoolMap.Opened, Compacted;
    CheckDeviceExact(once);
    CheckDeviceExact(twice);
    AcceptedReport(once);
    AcceptedReport(twice);
    CompactedReport(ReaderFor(dev), LoadOf(dev).value, ReaderFor(once), LoadOf(once).value);
    CompactedReport(ReaderFor(once), LoadOf(once).value, ReaderFor(twice), LoadOf(twice).value);
    var a1 := Validate(ReaderFor(once), LoadOf(once).value).value.report;
    var a2 := Validate(ReaderFor(twice), LoadOf(twice).value).value.report;
    assert a2.freeBlocks == a1.freeBlocks;
    assert a2 == a1;
  }

  lemma CompactedReport(rd: Reader, img: Image, rd': Reader, img': Image)
    requires Loaded(img) && Validate(rd, img).Ok? && Compacted(rd, img, rd', img')
    ensures Loaded(img') && Validate(rd', img').Ok? && img'.blocks == img.blocks && Next(img', MAX_INODES) == Next(img, MAX_INODES)
    ensures var a, a' := Validate(rd, img).value.report, Validate(rd', img').value.report;
            a' == a.(freeBlocks := a'.freeBlocks) && a'.freeBlocks == img.blocks - Next(img, MAX_INODES)
  {
    hide Validate, Next, Loaded, Contents, IsFile, InodeAt;
  }

  // ------------------------------------------------------------------- displaced metadata

  /** The superblock puts the inode table or the journal into the data area: byte
      offsets wrap at block 2^52. */
  predicate DisplacedMetadata(img: Image) {
    && |img.super| == SUPER_SIZE
    && (RootInodeAddr(img.super) % ADDRESSABLE >= DATA_START || JournalAddr(img.super) % ADDRESSABLE >= DATA_START)
  }

  lemma ZeroJournalUnsealed()
    ensures !JournalSealed(JournalOf(ZeroBlock()))
  {
    hide Crc.Fold;
    var j := JournalOf(ZeroBlock());
    GetZero(j, IL_CHECKSUM, 4);
    var s := j[..IL_CHECKSUM];
    Crc.DataChecksumStartsAtZero(s);
    Crc.FoldZeros(0, s);
    Crc.StepsZero(8 * |s|);
    XorZero(Crc.ONES);
    XorComm(0, Crc.ONES);
  }

  lemma ZeroTableIdle()
    ensures Idle(ZeroBlock())
    ensures forall img: Image :: img.inodes == ZeroBlock() ==> Mode(InodeAt(img, 0)) == 0
  {
    forall i | 0 <= i < INODES_READ
      ensures Mode(TableInode(ZeroBlock(), i)) == 0
    {
      GetZero(TableInode(ZeroBlock(), i), 0, 2);
    }
    forall img: Image | img.inodes == ZeroBlock()
      ensures Mode(InodeAt(img, 0)) == 0
    {
      GetZero(InodeAt(img, 0), 0, 2);
    }
  }

  /** A block that one device reads, another of the same size reads too. */
  lemma ReadElsewhere(p: Pool, dev: Device, t: Device, b: nat)
    requires OnDevice(p, dev) && OnDevice(p, t) && |t| == |dev| && ReadBlock(p, [dev], {}, b).Ok?
    ensures b % ADDRESSABLE < |t| && ReadBlock(p, [t], {}, b) == Ok(t[b % ADDRESSABLE])
  {
    hide PoolMap.Opened, ReadBlock, MapData;
    SingleReadsExact(p, dev, b);
    SingleReadsExact(p, t, b);
  }

  /** The target's image: the source's superblock, and zeros for what was displaced. */
  lemma DisplacedLoads(p: Pool, dev: Device, t: Device, logicalBlocks: nat)
    requires OnDevice(p, dev) && OnDevice(p, t) && Fresh(dev, t) && Blank(t)
    requires Load(ReaderOf(p, [dev], {}), logicalBlocks, 1).Ok? && DisplacedMetadata(Load(ReaderOf(p, [dev], {}), logicalBlocks, 1).value)
    requires Load(ReaderOf(p, [t], {}), logicalBlocks, 1).Ok?
    ensures var img, img' := Load(ReaderOf(p, [dev], {}), logicalBlocks, 1).value, Load(ReaderOf(p, [t], {}), logicalBlocks, 1).value;
            && Loaded(img') && img'.super == img.super && img'.inodes == ZeroBlock()
            && DATA_START <= RootInodeAddr(img.super) % ADDRESSABLE < |t| && ReadBlock(p, [t], {}, RootInodeAddr(img.super)).Ok?
  {
    hide Load, PoolMap.Opened, ReadBlock, Fresh, Blank, CheckSuper, CheckCheckpoint, CheckBitmap, JournalSealed, Sealed, SuperOf, JournalOf,
      JournalAddr, RootInodeAddr, Loaded;
    var rd, rd' := ReaderOf(p, [dev], {}), ReaderOf(p, [t], {});
    LoadParts(rd, logicalBlocks, 1);
    LoadParts(rd', logicalBlocks, 1);
    FreshSizes(dev, t);
    FreshLength(dev, t);
    FreshSame(dev, t, SUPER_BLOCK);
    ReadElsewhere(p, dev, dev, SUPER_BLOCK);
    ReadElsewhere(p, dev, t, SUPER_BLOCK);
    var s := Load(rd, logicalBlocks, 1).value.super;
    ReadElsewhere(p, dev, t, JournalAddr(s));
    ReadElsewhere(p, dev, t, RootInodeAddr(s));
    if JournalAddr(s) % ADDRESSABLE >= DATA_START {
      BlankAt(t, JournalAddr(s) % ADDRESSABLE);
      ZeroJournalUnsealed();
    }
    BlankAt(t, RootInodeAddr(s) % ADDRESSABLE);
  }

  /** A finished target keeps its data blocks and its superblock's pointers. */
  lemma DisplacedFinished(p: Pool, t: Device, img: Image, fin: Device, logicalBlocks: nat)
    requires OnDevice(p, t) && OnDevice(p, fin) && Loaded(img) && img.inodes == ZeroBlock() && DATA_START <= |t|
    requires Finished(t, img, img.inodes, DATA_START, fin) && Blank(t)
    requires DATA_START <= RootInodeAddr(img.super) % ADDRESSABLE < |t| && ReadBlock(p, [t], {}, RootInodeAddr(img.super)).Ok?
    requires Load(ReaderOf(p, [fin], {}), logicalBlocks, 1).Ok?
    ensures Load(ReaderOf(p, [fin], {}), logicalBlocks, 1).value.inodes == ZeroBlock()
  {
    hide Load, PoolMap.Opened, ReadBlock, CheckSuper, CheckCheckpoint, CheckBitmap, JournalSealed, Sealed, SuperOf, JournalOf, Blank,
      JournalAddr, RootInodeAddr, NewSuper, NewJournal, NewFree, Padded, RootDirBlock, NodeCount, BlocksCount;
    LoadParts(ReaderOf(p, [fin], {}), logicalBlocks, 1);
    ReadElsewhere(p, fin, fin, SUPER_BLOCK);
    PaddedPrefixes(NewSuper(img.super, img.blocks - DATA_START), NewJournal(img.journal));
    NewSuperPointers(img.super, img.blocks - DATA_START);
    var x := RootInodeAddr(img.super);
    BlankAt(t, x % ADDRESSABLE);
    assert fin[x % ADDRESSABLE] == t[x % ADDRESSABLE];
    ReadElsewhere(p, t, fin, x);
  }

  /** Rebalance never accepts its own work on an image with displaced metadata: the
      fresh target has zeros there, a zero journal fails its checksum, and a zero
      inode table has no root directory. */
  lemma DisplacedRefused(dev: Device, t0: Device, fin: Device)
    requires |dev| < DEVICE_MAX && CheckDevice(dev).Ok? && LoadOf(dev).Ok? && OpenImage(dev).Ok?
    requires DisplacedMetadata(LoadOf(dev).value) && Fresh(dev, t0) && Blank(t0)
    requires var o := OpenImage(dev).value;
             && OnDevice(o.pool, t0) && OnDevice(o.pool, fin)
             && var img := Load(ReaderOf(o.pool, [t0], {}), o.blocks, 1);
                img.Ok? && (Idle(img.value.inodes) ==> Loaded(img.value) && Finished(t0, img.value, img.value.inodes, DATA_START, fin))
    ensures CheckOpened(OpenImage(dev).value.pool, [fin], {}, OpenImage(dev).value.blocks).Err?
  {
    hide OpenImage, Load, Validate, CheckDevice, CheckOpened, Reads, Fresh, Blank, Idle, PoolMap.Opened, ReadBlock, ReaderOf, Finished,
      DisplacedMetadata, RootInodeAddr;
    var o := OpenImage(dev).value;
    CheckDeviceExact(dev);
    DisplacedLoads(o.pool, dev, t0, o.blocks);
    ZeroTableIdle();
    FreshSizes(dev, t0);
    var img := Load(ReaderOf(o.pool, [t0], {}), o.blocks, 1).value;
    CheckOpenedSingle(o.pool, fin, o.blocks);
    if Load(ReaderOf(o.pool, [fin], {}), o.blocks, 1).Ok? {
      DisplacedFinished(o.pool, t0, img, fin, o.blocks);
      RootUsed(ReaderOf(o.pool, [fin], {}), Load(ReaderOf(o.pool, [fin], {}), o.blocks, 1).value);
    }
  }

  lemma BlankAt(t: Device, b: nat)
    requires Blank(t) && DATA_START <= b < |t|
    ensures t[b] == ZeroBlock()
  {
  }

  /** An accepted image has a used inode 0. */
  lemma RootUsed(rd: Reader, img: Image)
    requires Loaded(img)
    ensures Validate(rd, img).Ok? ==> Mode(InodeAt(img, 0)) != 0
  {
    hide Validate, Scanned, BitSet, InodeAt, FileGood, Sealed, Get64, TheScan, TheFree, Tiles, Total, FreeIntervals, Directory, FreeGood, RootDirBlock,
      NodeCount, NodeNext, Get32, Mode, IsDir, IsReg;
    AcceptsExactly(rd, img);
    if Validate(rd, img).Ok? {
      assert InodeGood(rd, img, Refs(img), 0);
    }
  }

  // --------------------------------------------------------------------------- the run

  /** `aetherfs_run_rebalance`: the contents of the image afterwards. A regular
      file is replaced by the target; a block device is overwritten with the
      target's used prefix and checked again. */
  method RunRebalance(dev: Device, isBlockDevice: bool) returns (r: Result<Device>)
    requires |dev| < DEVICE_MAX
    ensures CheckDevice(dev).Err? ==> r.Err?
    ensures CheckDevice(dev).Ok? && LoadOf(dev).Ok? && DisplacedMetadata(LoadOf(dev).value) ==> r.Err?
    ensures Rebalanceable(dev) ==> (r.Ok? <==> Compactible(LoadOf(dev).value))
    ensures Rebalanceable(dev) && r.Ok? ==>
              && |r.value| == |dev| && CheckDevice(r.value).Ok? && LoadOf(r.value).Ok?
              && Rebalanceable(r.value) && Compactible(LoadOf(r.value).value)
              && Compacted(ReaderFor(dev), LoadOf(dev).value, ReaderFor(r.value), LoadOf(r.value).value)
    ensures Rebalanceable(dev) && r.Ok? ==>
              var next := Next(LoadOf(dev).value, MAX_INODES);
              && |r.value| == |dev| && next <= |dev|
              && (isBlockDevice ==> r.value[next..] == dev[next..])
              && (!isBlockDevice ==> forall b :: next <= b < |dev| ==> r.value[b] == ZeroBlock())
  {
    hide OpenImage, Load, Validate, CheckDevice, CheckOpened, Next, Reads, ReaderFor, Progress, Finished, Fresh, Loaded, PoolMap.Opened,
      Compactible, Compacted, Prepared, Canonical, ReadBlock, FinishedFrom, Idle, Blank, DisplacedMetadata;
    var check := CheckDevice(dev);
    CheckDeviceExact(dev);
    if check.Err? {
      return Err(check.error);
    }
    var o := OpenImage(dev).value;
    var rd := ReaderFor(dev);
    var src := LoadOf(dev).value;
    var copy := CopyReserved(rd, o.pool, dev);
    if copy.Err? {
      if Rebalanceable(dev) {
        RebalanceableSize(dev);
        assert false;
      }
      return Err(copy.error);
    }
    var t0 := copy.value;
    FreshLength(dev, t0);
    FreshSizes(dev, t0);
    OnDeviceKept(o.pool, dev, t0);
    FreshOpens(dev, t0);
    var next: nat;
    ghost var table;
    r, next, table := Rewrite(rd, src, o.pool, o.blocks, t0);
    if DisplacedMetadata(src) && r.Ok? {
      DisplacedRefused(dev, t0, r.value);
    }
    ghost var fin, t: Device := [], [];
    if Rebalanceable(dev) {
      RewriteReady(dev, t0);
      NextStarts(src, MAX_INODES);
      if r.Ok? {
        BlankFrom(t0, r.value, next);
      }
      fin, t :| && OnDevice(o.pool, fin) && Progress(rd, src, t0, t, table, MAX_INODES)
                && Finished(t, src, table, Next(src, MAX_INODES), fin)
                && r == (if CheckOpened(o.pool, [fin], {}, o.blocks).Ok? then Ok(fin) else Err(CheckOpened(o.pool, [fin], {}, o.blocks).error));
      MakeFinished(dev, t0, t, table, fin);
      TargetChecks(dev, t0, t, table, fin);
      CheckDeviceExact(fin);
      PrefixReadable(dev, t0, t, table, fin, o.pool);
    }
    if r.Ok? && isBlockDevice {
      OnDeviceKept(o.pool, dev, r.value);
      ReaderReads(o.pool, r.value);
      var written := CopyPrefix(ReaderOf(o.pool, [r.value], {}), o.pool, r.value, dev, next);
      if Rebalanceable(dev) {
        PrefixSuffices(dev, t0, t, table, fin, fin[..next] + dev[next..]);
        TargetChecks(dev, t0, t[..next] + dev[next..], table, fin[..next] + dev[next..]);
      }
      if written.Err? {
        return Err(written.error);
      }
      var again := CheckDevice(written.value);
      r := if again.Err? then Err(again.error) else Ok(written.value);
    }
  }

  /** Past the packed files the target is still zero. */
  lemma BlankFrom(t0: Device, t: Device, next: nat)
    requires SameFrom(t0, t, next) && Blank(t0) && DATA_START <= next
    ensures forall b :: next <= b < |t| ==> t[b] == ZeroBlock()
  {
  }

  lemma RebalanceableSize(dev: Device)
    requires Rebalanceable(dev)
    ensures DATA_START <= |dev|
  {
    hide OpenImage, Load, Validate, CheckDevice, ReaderFor, PoolMap.Opened, Loaded, CheckSuper, CheckCheckpoint, CheckBitmap, JournalSealed, Sealed, ReadBlock;
    CheckDeviceExact(dev);
    LoadParts(ReaderFor(dev), OpenImage(dev).value.blocks, 1);
    assert ReaderFor(dev)(CHECKPOINT_BLOCK).Ok?;
  }

  lemma FreshOpens(dev: Device, t0: Device)
    requires Fresh(dev, t0)
    ensures OpenImage(t0) == OpenImage(dev)
  {
    hide OpenImage;
    FreshSame(dev, t0, 0);
    OpenSame(dev, t0);
  }

  /** The source of a rebalanceable device meets what the layout loop relies on. */
  lemma RewriteReady(dev: Device, t0: Device)
    requires Rebalanceable(dev) && Fresh(dev, t0) && OpenImage(dev).Ok?
    ensures var o := OpenImage(dev).value; var src := LoadOf(dev).value;
            && OnDevice(o.pool, t0) && Load(ReaderOf(o.pool, [t0], {}), o.blocks, 1) == Ok(src)
            && Prepared(ReaderFor(dev), src, src, o.pool, src.blocks, |t0|)
            && Next(src, MAX_INODES) <= src.blocks
  {
    hide OpenImage, Load, Validate, CheckDevice, Next, Reads, ReaderFor, PoolMap.Opened, Prepared, Canonical, ReadBlock, ReaderOf;
    var o := OpenImage(dev).value;
    CheckDeviceExact(dev);
    OnDeviceKept(o.pool, dev, t0);
    ReaderReads(o.pool, t0);
    FreshLoads(o.pool, dev, ReaderFor(dev), t0, ReaderOf(o.pool, [t0], {}), o.blocks);
    CanonicalSize(LoadOf(dev).value);
    PlanReached(o.pool, dev, ReaderFor(dev), LoadOf(dev).value);
  }

  lemma CanonicalSize(img: Image)
    requires |img.super| == SUPER_SIZE && Canonical(img)
    ensures img.blocks <= DEVICE_MAX
  {
  }

  lemma MakeFinished(dev: Device, t0: Device, t: Device, table: Block, fin: Device)
    requires Rebalanceable(dev) && Fresh(dev, t0) && Next(LoadOf(dev).value, MAX_INODES) <= LoadOf(dev).value.blocks
    requires Progress(ReaderFor(dev), LoadOf(dev).value, t0, t, table, MAX_INODES)
    requires Finished(t, LoadOf(dev).value, table, Next(LoadOf(dev).value, MAX_INODES), fin)
    ensures FinishedFrom(dev, t0, t, table, fin)
  {
    hide OpenImage, Load, Validate, CheckDevice, Next, ReaderFor, LoadOf, Progress, Finished, Fresh;
  }

  /** The blocks below `next_block` of a finished target can all be read. */
  lemma PrefixReadable(dev: Device, t0: Device, t: Device, table: Block, fin: Device, p: Pool)
    requires Rebalanceable(dev) && FinishedFrom(dev, t0, t, table, fin) && OpenImage(dev).Ok? && p == OpenImage(dev).value.pool
    requires OnDevice(p, fin) && |fin| == |dev|
    ensures var next := Next(LoadOf(dev).value, MAX_INODES);
            next <= |dev| && forall b: nat :: b < next ==> ReadBlock(p, [fin], {}, b).Ok?
  {
    hide OpenImage, Load, Validate, CheckDevice, Next, Reads, ReaderFor, Progress, Finished, Loaded, PoolMap.Opened, ReadBlock, Reaches;
    CheckDeviceExact(dev);
    var img := LoadOf(dev).value;
    PlanReached(p, dev, ReaderFor(dev), img);
    forall b: nat | b < Next(img, MAX_INODES)
      ensures ReadBlock(p, [fin], {}, b).Ok?
    {
      if b < DATA_START {
        BootstrapReached(p, |dev|, b);
      }
      assert Reaches(p, |dev|, b);
      SingleReads(p, fin, b);
    }
  }
}
