/** Rebalance as a whole, and what it guarantees. */
module RebalanceTheorem {
  import opened Bytes
  import Crc
  import opened Layout
  import opened Intervals
  import opened V = Validator
  import opened ValidatorLaws
  import opened Acceptance
  import opened Loader
  import opened Packing
  import opened SpaceBound
  import opened Compaction
  import opened PoolMap
  import opened PoolOpen
  import opened ImageCheck
  import opened SingleDevice
  import opened Rebalance
  import opened RebalanceRun

  // ------------------------------------------------------------------- closing records

  /** Block b of the finished target, where t has v: inode table, free list,
      superblock and journal are rewritten. */
  function FinishedBlock(img: Image, table: Block, next: nat, b: nat, v: Block): Block
    requires Loaded(img) && next <= img.blocks
  {
    if b == ROOT_INODE_BLOCK then table
    else if b == FREE_EXTENT_BLOCK then NewFree(next, img.blocks)
    else if b == SUPER_BLOCK then Padded(NewSuper(img.super, img.blocks - next))
    else if b == JOURNAL_BLOCK then Padded(NewJournal(img.journal))
    else v
  }

  /** fin is t with the closing records rewritten. */
  ghost predicate Finished(t: Device, img: Image, table: Block, next: nat, fin: Device)
    requires Loaded(img) && next <= img.blocks
  {
    |fin| == |t| && forall b :: 0 <= b < |t| ==> fin[b] == FinishedBlock(img, table, next, b, t[b])
  }

  method FinishTarget(p: Pool, t: Device, img: Image, table: Block, next: nat) returns (r: Result<Device>)
    requires OnDevice(p, t) && DATA_START <= |t| && Loaded(img) && next <= img.blocks
    ensures r.Ok? && Finished(t, img, table, next, r.value)
  {
    hide Reaches, PoolMap.Opened, NewFree, NewSuper, NewJournal, Padded;
    BootstrapReached(p, |t|, ROOT_INODE_BLOCK);
    BootstrapReached(p, |t|, FREE_EXTENT_BLOCK);
    BootstrapReached(p, |t|, SUPER_BLOCK);
    BootstrapReached(p, |t|, JOURNAL_BLOCK);
    r := WriteTo(p, t, ROOT_INODE_BLOCK, table);
    OnDeviceKept(p, t, r.value);
    r := WriteTo(p, r.value, FREE_EXTENT_BLOCK, NewFree(next, img.blocks));
    OnDeviceKept(p, t, r.value);
    r := WriteTo(p, r.value, SUPER_BLOCK, Padded(NewSuper(img.super, img.blocks - next)));
    OnDeviceKept(p, t, r.value);
    r := WriteTo(p, r.value, JOURNAL_BLOCK, Padded(NewJournal(img.journal)));
  }

  // ------------------------------------------------------------------------ the source

  /** An image that rebalance can find again: the inode table is in block 2, the
      journal in a bootstrap block that is not the free list, and the device can
      address all blocks. */
  ghost predicate Canonical(img: Image)
    requires |img.super| == SUPER_SIZE
  {
    && RootInodeAddr(img.super) == ROOT_INODE_BLOCK && JournalAddr(img.super) < DATA_START && JournalAddr(img.super) != FREE_EXTENT_BLOCK
    && img.blocks <= DEVICE_MAX
  }

  /** Every block the plan uses is reached by the device and its map. */
  lemma PlanReached(p: Pool, dev: Device, rd: Reader, img: Image)
    requires Reads(rd, p, dev) && DATA_START <= |dev| && Source(rd, img) && img.blocks <= DEVICE_MAX
    ensures Prepared(rd, img, img, p, img.blocks, |dev|) && Next(img, MAX_INODES) <= img.blocks
  {
    hide Validate, Scanned, ScanInodes, Next, Limit, Hits, PoolMap.Opened, Get64;
    SourceFacts(rd, img);
    AcceptedConserves(rd, img);
    ScanFacts(rd, img);
    var use := DataUse(TheScan(rd, img));
    ScanInodesRead(rd, img, Refs(img), MAX_INODES);
    var hi := if Limit(p, |dev|) < DATA_START then DATA_START else Limit(p, |dev|);
    forall d: nat
      ensures Hits(use, d) <= if DATA_START <= d < hi then 1 else 0
    {
      if Hits(use, d) >= 1 {
        assert rd(d).Ok?;
      }
    }
    forall i | 0 <= i < |use|
      ensures use[i].len > 0
    {
      assert Bounded(use[i], img.blocks);
    }
    TotalWithin(use, DATA_START, hi);
    NextBound(rd, img, Refs(img), MAX_INODES);
    NextStarts(img, MAX_INODES);
    LimitBelow(p, |dev|);
  }

  lemma LimitBelow(p: Pool, n: nat)
    requires PoolMap.Opened(p)
    ensures Limit(p, n) <= n
  {
  }

  // ------------------------------------------------------------------------ the target

  /** A fresh copy holds the bootstrap blocks of the source. */
  ghost predicate Fresh(dev: Device, t: Device) {
    |t| == |dev| && DATA_START <= |dev| && t[..DATA_START] == dev[..DATA_START]
  }

  lemma FreshSame(dev: Device, t: Device, b: nat)
    requires Fresh(dev, t) && b < DATA_START
    ensures t[b] == dev[b]
  {
    assert t[..DATA_START][b] == dev[..DATA_START][b];
  }

  lemma FreshLoads(p: Pool, dev: Device, rd: Reader, t: Device, rd': Reader, logicalBlocks: nat)
    requires Reads(rd, p, dev) && Reads(rd', p, t) && Fresh(dev, t)
    requires Load(rd, logicalBlocks, 1).Ok? && |Load(rd, logicalBlocks, 1).value.super| == SUPER_SIZE
    requires Canonical(Load(rd, logicalBlocks, 1).value)
    ensures Load(rd', logicalBlocks, 1) == Load(rd, logicalBlocks, 1)
  {
    hide Load, PoolMap.Opened, Reaches, Reads, Fresh, Get64;
    forall b: nat | b < DATA_START
      ensures rd(b) == rd'(b)
    {
      FreshSizes(dev, t);
      BootstrapReads(rd, p, dev, b);
      BootstrapReads(rd', p, t, b);
      FreshSame(dev, t, b);
    }
    LoadFrame(rd, rd', logicalBlocks, 1);
  }

  lemma FreshSizes(dev: Device, t: Device)
    requires Fresh(dev, t)
    ensures DATA_START <= |dev| && DATA_START <= |t|
  {
  }

  /** A finished bootstrap block. */
  lemma FinishedReads(p: Pool, dev: Device, rd: Reader, t: Device, img: Image, table: Block, next: nat, fin: Device, rd': Reader, b: nat)
    requires Reads(rd, p, dev) && Reads(rd', p, fin) && Fresh(dev, t) && Loaded(img) && next <= img.blocks
    requires Finished(t, img, table, next, fin) && b < DATA_START
    ensures rd(b).Ok? && rd'(b) == Ok(FinishedBlock(img, table, next, b, rd(b).value))
  {
    hide Reads, PoolMap.Opened, Reaches, FinishedBlock;
    FreshSame(dev, t, b);
    BootstrapReads(rd, p, dev, b);
    BootstrapReads(rd', p, fin, b);
  }

  /** A journal without outstanding entries is rewritten as it was. */
  lemma NewJournalSame(j: Journal)
    requires JournalSealed(j) && Get32(j, 36) == 0
    ensures NewJournal(j) == j
  {
    hide Put, Crc.DataChecksum;
    PutGetSame(j, 36, 4);
    PutGetSame(j, IL_CHECKSUM, 4);
  }

  /** Whichever bootstrap block holds the journal, the finished one still does: block 4
      is rewritten as the journal, and inode 0 does not move. */
  lemma FinishedJournal(img: Image, table: Block, next: nat, b: nat, v: Block)
    requires Loaded(img) && next <= img.blocks && TableOf(img, table) && b < DATA_START && b != FREE_EXTENT_BLOCK && b != SUPER_BLOCK
    requires img.journal == JournalOf(v) && JournalSealed(img.journal) && Get32(img.journal, 36) == 0
    requires b == ROOT_INODE_BLOCK ==> v == img.inodes
    ensures JournalOf(FinishedBlock(img, table, next, b, v)) == NewJournal(img.journal)
  {
    hide NewJournal, NewSuper, NewFree, JournalSealed, Get, Next, IsFile;
    NewJournalSame(img.journal);
    if b == JOURNAL_BLOCK {
      PaddedPrefixes(img.super, NewJournal(img.journal));
    } else if b == ROOT_INODE_BLOCK {
      assert table[0..512] == PackedInode(img, 0) == img.inodes[0..512];
      assert JournalOf(table) == table[0..512][..48] && JournalOf(v) == img.inodes[0..512][..48];
    }
  }

  /** The member count of a superblock is where a journal counts outstanding entries. */
  lemma SuperAsJournal(v: Block, logicalBlocks: nat)
    requires CheckSuper(SuperOf(v), logicalBlocks, 1).Zero?
    ensures Get32(JournalOf(v), 36) == 1
  {
    hide Get, Sealed;
    GetFrame(JournalOf(v), SuperOf(v), 36, 4);
  }

  /** The finished target loads as the compacted image. */
  lemma FinishedLoads(p: Pool, dev: Device, rd: Reader, t: Device, img: Image, table: Block, fin: Device, rd': Reader, logicalBlocks: nat)
    requires Reads(rd, p, dev) && Reads(rd', p, fin) && Fresh(dev, t) && Load(rd, logicalBlocks, 1) == Ok(img)
    requires Loaded(img) && Canonical(img) && Next(img, MAX_INODES) <= img.blocks && Get32(img.journal, 36) == 0 && TableOf(img, table)
    requires Finished(t, img, table, Next(img, MAX_INODES), fin)
    ensures Load(rd', logicalBlocks, 1) == Ok(PackedImage(img, table))
  {
    hide Load, Reads, Reaches, PoolMap.Opened, Next, Finished, Fresh,
      NewSuper, NewJournal, NewFree, CheckSuper, CheckCheckpoint, CheckBitmap, JournalSealed, Sealed, Get64, Get32, SuperOf, JournalOf, Padded, TableOf;
    var next := Next(img, MAX_INODES);
    LoadParts(rd, logicalBlocks, 1);
    FinishedReads(p, dev, rd, t, img, table, next, fin, rd', SUPER_BLOCK);
    FinishedReads(p, dev, rd, t, img, table, next, fin, rd', ROOT_INODE_BLOCK);
    FinishedReads(p, dev, rd, t, img, table, next, fin, rd', ROOT_DIR_BLOCK);
    SuperAsJournal(rd(SUPER_BLOCK).value, logicalBlocks);
    FinishedReads(p, dev, rd, t, img, table, next, fin, rd', JournalAddr(img.super));
    FinishedJournal(img, table, next, JournalAddr(img.super), rd(JournalAddr(img.super)).value);
    FinishedReads(p, dev, rd, t, img, table, next, fin, rd', INODE_BITMAP_BLOCK);
    FinishedReads(p, dev, rd, t, img, table, next, fin, rd', FREE_EXTENT_BLOCK);
    FinishedReads(p, dev, rd, t, img, table, next, fin, rd', CHECKPOINT_BLOCK);
    PaddedPrefixes(NewSuper(img.super, img.blocks - next), NewJournal(img.journal));
    NewSuperPasses(img.super, img.blocks - next, logicalBlocks, 1, img.checkpoint);
    NewSuperPointers(img.super, img.blocks - next);
    NewJournalPasses(img.journal);
    NewFreeFields(next, img.blocks);
    LoadAccepts(rd', logicalBlocks, 1, PackedImage(img, table));
  }

  /** It shows every file packed. */
  lemma FinishedPacked(p: Pool, dev: Device, rd: Reader, t0: Device, t: Device, img: Image, table: Block, fin: Device, rd': Reader)
    requires Reads(rd, p, dev) && Reads(rd', p, fin) && |t0| == |dev| && Source(rd, img)
    requires Prepared(rd, img, img, p, img.blocks, |dev|) && Next(img, MAX_INODES) <= img.blocks <= DEVICE_MAX
    requires Progress(rd, img, t0, t, table, MAX_INODES) && Finished(t, img, table, Next(img, MAX_INODES), fin)
    ensures FilesPacked(rd, img, rd', MAX_INODES) && TableOf(img, table)
  {
    hide Validate, Reads, Reaches, PoolMap.Opened, Next, FileImage, Contents, PackedInode, IsFile, InodeAt, FinishedBlock, Region, Finished, HoldsAt;
    NextStarts(img, MAX_INODES);
    forall i | 1 <= i < MAX_INODES && IsFile(img, i) && Blocks(InodeAt(img, i)) > 0
      ensures ShowsAt(rd', Next(img, i), FileImage(Contents(rd, InodeAt(img, i)), Next(img, i)))
    {
      FinishedFile(p, |dev|, rd, t, img, table, fin, rd', i);
    }
    forall i | 0 <= i < INODES_READ
      ensures table[INODE_SIZE * i..INODE_SIZE * i + INODE_SIZE] == PackedInode(img, i)
    {
      assert TableInode(table, i) == PackedInode(img, i);
    }
  }

  lemma FinishedFile(p: Pool, n: nat, rd: Reader, t: Device, img: Image, table: Block, fin: Device, rd': Reader, i: nat)
    requires Reads(rd', p, fin) && |t| == n && Source(rd, img) && DATA_START <= Next(img, MAX_INODES) <= img.blocks <= DEVICE_MAX
    requires Finished(t, img, table, Next(img, MAX_INODES), fin) && Region(p, n, DATA_START, Next(img, MAX_INODES) - DATA_START)
    requires 1 <= i < MAX_INODES && IsFile(img, i) && Blocks(InodeAt(img, i)) > 0
    requires HoldsAt(t, Next(img, i), FileImage(Contents(rd, InodeAt(img, i)), Next(img, i)))
    ensures ShowsAt(rd', Next(img, i), FileImage(Contents(rd, InodeAt(img, i)), Next(img, i)))
  {
    hide Validate, Reads, Reaches, PoolMap.Opened, Next, FileImage, Contents, IsFile, InodeAt, FinishedBlock, Region, Finished, HoldsAt, ShowsAt;
    SourceFile(rd, img, i);
    FileImageLength(Contents(rd, InodeAt(img, i)), Next(img, i));
    NextMonotone(img, i, MAX_INODES);
    NextStarts(img, i);
    FinishedShows(p, n, t, img, table, fin, rd', Next(img, i), FileImage(Contents(rd, InodeAt(img, i)), Next(img, i)));
  }

  lemma FinishedShows(p: Pool, n: nat, t: Device, img: Image, table: Block, fin: Device, rd': Reader, at: nat, bs: seq<Block>)
    requires Reads(rd', p, fin) && |t| == n && Loaded(img) && Next(img, MAX_INODES) <= img.blocks <= DEVICE_MAX
    requires Finished(t, img, table, Next(img, MAX_INODES), fin) && HoldsAt(t, at, bs)
    requires DATA_START <= at && at + |bs| <= Next(img, MAX_INODES)
    requires Region(p, n, DATA_START, Next(img, MAX_INODES) - DATA_START)
    ensures ShowsAt(rd', at, bs)
  {
    hide Next, Reaches, PoolMap.Opened, Loaded;
    forall k | 0 <= k < |bs|
      ensures rd'(at + k) == Ok(bs[k])
    {
      assert Reaches(p, n, at + k);
      assert rd'(at + k).Ok?;
      assert t[at..at + |bs|][k] == t[at + k];
      assert fin[at + k] == FinishedBlock(img, table, Next(img, MAX_INODES), at + k, t[at + k]);
    }
  }

  /** The inodes agree apart from extent root and checksum. */
  predicate MovedInode(a: Inode, b: Inode) {
    forall k :: 0 <= k < 512 && !(52 <= k < 60 || I_CHECKSUM <= k < I_CHECKSUM + 4) ==> a[k] == b[k]
  }

  /** The file is one run of blocks from `at` on: its extent node, one extent with all
      n data blocks, and the checksum chain. */
  predicate OneRun(rd: Reader, inode: Inode, at: nat, n: nat) {
    && ExtentRoot(inode) == at && rd(at).Ok?
    && var node := rd(at).value;
       && NodeCount(node) == 1 && ExtentLogical(node, 0) == 0 && ExtentLen(node, 0) == n
       && ExtentStart(node, 0) == at + 1 && ExtentSums(node, 0) == at + 1 + n
  }

  /** What rebalance promises: the new image passes every check and reports as many
      files, directories and data blocks, the directory and with it every name is
      unchanged, every file keeps its blocks and every inode its attributes, the files
      follow each other in inode order, each in one run of blocks, and all that they do
      not need is free, which is no less than before. Packing it again would give the
      same layout. */
  ghost predicate Compacted(rd: Reader, img: Image, rd': Reader, img': Image)
    requires Loaded(img) && Validate(rd, img).Ok?
  {
    && Loaded(img') && Validate(rd', img').Ok?
    && var a, a' := Validate(rd, img).value.report, Validate(rd', img').value.report;
       && a' == a.(freeBlocks := a'.freeBlocks) && a'.freeBlocks == img.blocks - Next(img, MAX_INODES) >= a.freeBlocks
       && img'.blocks == img.blocks && Next(img', MAX_INODES) == Next(img, MAX_INODES)
       && img'.rootDir == img.rootDir && img'.bitmap == img.bitmap && img'.checkpoint == img.checkpoint
       && forall i :: 0 <= i < MAX_INODES ==>
            && (IsFile(img', i) <==> IsFile(img, i))
            && (!IsFile(img, i) ==> InodeAt(img', i) == InodeAt(img, i))
            && (IsFile(img, i) ==>
                  && Size(InodeAt(img', i)) == Size(InodeAt(img, i)) && MovedInode(InodeAt(img, i), InodeAt(img', i))
                  && OneRun(rd', InodeAt(img', i), Next(img, i), Blocks(InodeAt(img, i)))
                  && Contents(rd', InodeAt(img', i)) == Contents(rd, InodeAt(img, i)))
  }

  /** The finished target is accepted exactly when the source was compactible, and
      then it holds the same files. */
  lemma FinishedChecks(rd: Reader, img: Image, rd': Reader, table: Block)
    requires Source(rd, img) && TableOf(img, table) && Next(img, MAX_INODES) <= img.blocks && FilesPacked(rd, img, rd', MAX_INODES)
    ensures Loaded(PackedImage(img, table))
    ensures Validate(rd', PackedImage(img, table)).Ok? <==> Compactible(img)
    ensures Compactible(img) ==> Compacted(rd, img, rd', PackedImage(img, table))
  {
    hide Validate, PackedImage, Next, IsFile, InodeAt, Contents, FilesPacked, TableOf, Get64, Compactible, Loaded, MovedInode, OneRun;
    SourceFacts(rd, img);
    if Compactible(img) {
      PackedAccepted(rd, img, rd', table);
      PackedRootDir(img, table);
      PackedPlan(img, table, MAX_INODES);
      ReportFree(rd, img);
      PackedKeeps(img, table);
      forall i | 0 <= i < MAX_INODES
        ensures IsFile(PackedImage(img, table), i) <==> IsFile(img, i)
        ensures !IsFile(img, i) ==> InodeAt(PackedImage(img, table), i) == InodeAt(img, i)
        ensures IsFile(img, i) ==>
                  && Size(InodeAt(PackedImage(img, table), i)) == Size(InodeAt(img, i))
                  && MovedInode(InodeAt(img, i), InodeAt(PackedImage(img, table), i))
                  && OneRun(rd', InodeAt(PackedImage(img, table), i), Next(img, i), Blocks(InodeAt(img, i)))
                  && Contents(rd', InodeAt(PackedImage(img, table), i)) == Contents(rd, InodeAt(img, i))
      {
        FileKept(rd, img, rd', table, i);
      }
    } else {
      PackedRejected(rd, img, rd', table);
    }
  }

  lemma FileInOneRun(rd: Reader, img: Image, rd': Reader, table: Block, i: nat)
    requires Source(rd, img) && TableOf(img, table) && Next(img, MAX_INODES) <= img.blocks && FilesPacked(rd, img, rd', MAX_INODES)
    requires 1 <= i < MAX_INODES && IsFile(img, i) && Blocks(InodeAt(img, i)) > 0
    ensures OneRun(rd', InodeAt(PackedImage(img, table), i), Next(img, i), Blocks(InodeAt(img, i)))
  {
    hide Validate, PackedImage, PackedInode, Next, IsFile, InodeAt, Contents, TableOf, NewInode, OneRun, FileImage, ShowsAt, Blocks, ExtentRoot, Size, Mode, Sealed;
    PackedInodeAt(img, table, i);
    SourceFile(rd, img, i);
    NextMonotone(img, i, MAX_INODES);
    RunShown(rd', InodeAt(PackedImage(img, table), i), Next(img, i), Contents(rd, InodeAt(img, i)));
  }

  lemma RunShown(rd: Reader, inode: Inode, at: nat, data: seq<Block>)
    requires data != [] && ShowsAt(rd, at, FileImage(data, at)) && ExtentRoot(inode) == at && at + Cost(|data|) < U64
    ensures OneRun(rd, inode, at, |data|)
  {
    hide NodeBlock, ChainBlocks, FileImage, ExtentRoot, Sealed, NodeNext, NodeCount, ExtentLogical, ExtentStart, ExtentSums, ExtentLen, SumsNeeded;
    FileImageParts(rd, at, data);
    NodeFields(at + 1, at + 1 + |data|, |data|);
  }

  lemma PackedKeeps(img: Image, table: Block)
    requires Loaded(img) && Next(img, MAX_INODES) <= img.blocks
    ensures var img' := PackedImage(img, table); img'.rootDir == img.rootDir && img'.bitmap == img.bitmap && img'.checkpoint == img.checkpoint
  {
    hide Next, NewSuper, NewJournal, NewFree;
  }

  lemma NewInodeMoved(inode: Inode, root: nat)
    ensures MovedInode(inode, NewInode(inode, root))
  {
    hide Put, SelfChecksum;
  }

  lemma SameCost(img: Image, table: Block, i: nat)
    requires Loaded(img) && TableOf(img, table) && Next(img, MAX_INODES) <= img.blocks && i < MAX_INODES
    ensures PackedCost(PackedImage(img, table), i) == PackedCost(img, i)
  {
    hide PackedImage, TableOf, Loaded, InodeAt, IsFile, Next;
    PackedInodeAt(img, table, i);
  }

  /** The packed image plans the same layout. */
  lemma {:induction false} PackedPlan(img: Image, table: Block, n: nat)
    requires Loaded(img) && TableOf(img, table) && Next(img, MAX_INODES) <= img.blocks && n <= MAX_INODES
    ensures Next(PackedImage(img, table), n) == Next(img, n)
    decreases n
  {
    hide PackedImage, TableOf, Loaded, PackedCost;
    if n > 0 {
      SameCost(img, table, n - 1);
      PackedPlan(img, table, n - 1);
    }
  }

  /** Packing keeps the conditions under which it works. */
  lemma PackedAgain(img: Image, table: Block)
    requires Loaded(img) && TableOf(img, table) && Next(img, MAX_INODES) <= img.blocks && Canonical(img) && Compactible(img)
    ensures Loaded(PackedImage(img, table)) && Canonical(PackedImage(img, table)) && Compactible(PackedImage(img, table))
  {
    hide TableOf, InodeAt, IsFile, Next, NewSuper, NewJournal, NewFree, JournalAddr, RootInodeAddr, RootDirBlock, NodeCount, Blocks, Get32, Get64;
    NewSuperPointers(img.super, img.blocks - Next(img, MAX_INODES));
    PackedLoaded(img, table);
    forall i | 0 <= i < MAX_INODES
      ensures IsFile(PackedImage(img, table), i) <==> IsFile(img, i)
      ensures Blocks(InodeAt(PackedImage(img, table), i)) == Blocks(InodeAt(img, i))
    {
      PackedInodeAt(img, table, i);
    }
  }

  lemma ReportFree(rd: Reader, img: Image)
    requires Source(rd, img)
    ensures Validate(rd, img).value.report.freeBlocks == Get64(img.super, FREE_BLOCKS)
  {
    hide Validate, Get64, ScanInodes, ScanFree;
    ReportSays(rd, img);
  }

  lemma FileKept(rd: Reader, img: Image, rd': Reader, table: Block, i: nat)
    requires Source(rd, img) && TableOf(img, table) && Next(img, MAX_INODES) <= img.blocks && FilesPacked(rd, img, rd', MAX_INODES)
    requires Compactible(img) && i < MAX_INODES
    ensures IsFile(PackedImage(img, table), i) <==> IsFile(img, i)
    ensures !IsFile(img, i) ==> InodeAt(PackedImage(img, table), i) == InodeAt(img, i)
    ensures IsFile(img, i) ==>
              && Size(InodeAt(PackedImage(img, table), i)) == Size(InodeAt(img, i))
              && MovedInode(InodeAt(img, i), InodeAt(PackedImage(img, table), i))
              && OneRun(rd', InodeAt(PackedImage(img, table), i), Next(img, i), Blocks(InodeAt(img, i)))
              && Contents(rd', InodeAt(PackedImage(img, table), i)) == Contents(rd, InodeAt(img, i))
  {
    hide Validate, PackedImage, Next, IsFile, InodeAt, Contents, FilesPacked, TableOf, NewInode, OneRun, Loaded, MovedInode;
    PackedInodeAt(img, table, i);
    if IsFile(img, i) {
      NewInodeMoved(InodeAt(img, i), Next(img, i));
      FileInOneRun(rd, img, rd', table, i);
      PackedFileScans(rd, img, rd', table, i);
    }
  }

  // --------------------------------------------------------------------------- the run

  /** Past the bootstrap blocks there are only zeros. */
  ghost predicate Blank(t: Device) {
    forall b :: DATA_START <= b < |t| ==> t[b] == ZeroBlock()
  }

  /** `aetherfs_copy_reserved_blocks` into a file of zeros. */
  method CopyReserved(rd: Reader, p: Pool, dev: Device) returns (r: Result<Device>)
    requires Reads(rd, p, dev)
    ensures r.Ok? <==> DATA_START <= |dev|
    ensures r.Ok? ==> Fresh(dev, r.value) && Blank(r.value)
  {
    hide Reaches, PoolMap.Opened, Reads;
    var t: Device := [];
    while |t| < |dev|
      invariant |t| <= |dev| && Blank(t)
    {
      t := t + [ZeroBlock()];
    }
    for blocknr := 0 to DATA_START
      invariant |t| == |dev| && blocknr <= |dev| && t[..blocknr] == dev[..blocknr] && Blank(t)
    {
      var block := rd(blocknr);
      ReservedRead(rd, p, dev, blocknr);
      if block.Err? {
        return Err(block.error);
      }
      t := SetBlock(t, blocknr, block.value);
      assert t[..blocknr + 1] == t[..blocknr] + [block.value] && dev[..blocknr + 1] == dev[..blocknr] + [dev[blocknr]];
    }
    r := Ok(t);
  }

  /** The body of rebalance once source and target are open on pool p: layout,
      closing records, and the check of the result. It returns the new contents and
      `next_block`. */
  method Rewrite(rd: Reader, src: Image, p: Pool, logicalBlocks: nat, t0: Device)
    returns (r: Result<Device>, next: nat, ghost table: Block)
    requires OnDevice(p, t0) && DATA_START <= |t0|
    ensures r.Ok? ==> |r.value| == |t0| && CheckOpened(p, [r.value], {}, logicalBlocks).Ok?
    ensures Load(ReaderOf(p, [t0], {}), logicalBlocks, 1).Err? ==> r.Err?
    ensures var img := Load(ReaderOf(p, [t0], {}), logicalBlocks, 1);
            img.Ok? && Idle(img.value.inodes) && r.Ok? ==>
              Loaded(img.value) && Finished(t0, img.value, img.value.inodes, DATA_START, r.value)
    ensures Load(ReaderOf(p, [t0], {}), logicalBlocks, 1) == Ok(src) && Prepared(rd, src, src, p, src.blocks, |t0|)
            && Next(src, MAX_INODES) <= src.blocks && Loaded(src) ==>
              (r.Ok? ==> next == Next(src, MAX_INODES) && SameFrom(t0, r.value, next)) &&
              exists fin, t :: && OnDevice(p, fin) && Progress(rd, src, t0, t, table, MAX_INODES)
                               && Finished(t, src, table, Next(src, MAX_INODES), fin)
                               && r == (if CheckOpened(p, [fin], {}, logicalBlocks).Ok? then Ok(fin)
                                        else Err(CheckOpened(p, [fin], {}, logicalBlocks).error))
  {
    hide Load, PoolMap.Opened, Next, CheckOpened, Loaded, ReaderOf, Prepared, Progress, Finished, Idle, SameFrom;
    table, next := ZeroBlock(), 0;
    var img := Load(ReaderOf(p, [t0], {}), logicalBlocks, 1);
    if img.Err? {
      r := Err(img.error);
      return;
    }
    LoadParts(ReaderOf(p, [t0], {}), logicalBlocks, 1);
    LoadedBlocks(img.value);
    var packed := PackFiles(rd, src, img.value, p, img.value.blocks, t0);
    if packed.Err? {
      r := Err(packed.error);
      return;
    }
    table, next := packed.value.table, packed.value.next;
    OnDeviceKept(p, t0, packed.value.target);
    var fin := FinishTarget(p, packed.value.target, img.value, packed.value.table, next);
    FinishedSize(packed.value.target, img.value, table, next, fin.value);
    FinishedSameFrom(t0, packed.value.target, img.value, table, next, fin.value);
    OnDeviceKept(p, t0, fin.value);
    var check := CheckOpened(p, [fin.value], {}, logicalBlocks);
    r := if check.Err? then Err(check.error) else Ok(fin.value);
  }

  lemma LoadedBlocks(img: Image)
    requires Loaded(img)
    ensures DATA_START <= img.blocks
  {
  }

  lemma FinishedSameFrom(t0: Device, t: Device, img: Image, table: Block, next: nat, fin: Device)
    requires Loaded(img) && DATA_START <= next <= img.blocks && Finished(t, img, table, next, fin)
    ensures SameFrom(t0, t, next) ==> SameFrom(t0, fin, next)
  {
    hide Loaded, NewSuper, NewJournal, NewFree, Padded;
  }

  lemma FinishedSize(t: Device, img: Image, table: Block, next: nat, fin: Device)
    requires Loaded(img) && next <= img.blocks && Finished(t, img, table, next, fin)
    ensures |fin| == |t|
  {
  }
}
