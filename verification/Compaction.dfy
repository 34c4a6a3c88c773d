/** The image rebalance leaves: what it contains, and exactly when the validator
    accepts it. */
module Compaction {
  import opened Bytes
  import opened Crc
  import opened Layout
  import opened Intervals
  import opened Validator
  import opened ValidatorLaws
  import opened Acceptance
  import opened Loader
  import opened Packing
  import opened SpaceBound

  // ----------------------------------------------------------------- rewritten records

  function NewInode(inode: Inode, root: nat): Inode {
    Seal(Put(inode, 52, 8, root), I_CHECKSUM)
  }

  function NewSuper(s: Super, free: nat): Super {
    Seal(Put(s, FREE_BLOCKS, 8, free), S_CHECKSUM)
  }

  function NewJournal(j: Journal): Journal {
    var cleared := Put(j, 36, 4, 0);
    Put(cleared, IL_CHECKSUM, 4, DataChecksum(cleared[..IL_CHECKSUM]))
  }

  /** One free extent from next to the end of the image, or none. */
  function NewFree(next: nat, blocks: nat): Block {
    if next < blocks
    then Seal(PutBlock(PutBlock(PutBlock(ZeroBlock(), 8, 4, 1), 24, 8, next), 40, 8, blocks - next), EN_CHECKSUM)
    else Seal(PutBlock(ZeroBlock(), 8, 4, 0), EN_CHECKSUM)
  }

  lemma NewInodeFields(inode: Inode, root: nat)
    requires root < U64
    ensures var r := NewInode(inode, root);
            && Sealed(r, I_CHECKSUM) && ExtentRoot(r) == root
            && Mode(r) == Mode(inode) && Size(r) == Size(inode) && Blocks(r) == Blocks(inode)
  {
    hide Get, Put;
    var x := Put(inode, 52, 8, root);
    var r := NewInode(inode, root);
    Pow256Values();
    SealSeals(x, I_CHECKSUM);
    GetPut(inode, 52, 8, root);
    GetFrame(r, x, 52, 8);
    GetFrame(r, inode, 0, 2);
    GetFrame(r, inode, 12, 8);
    GetFrame(r, inode, 20, 8);
  }

  lemma SuperKept(s: Super, free: nat, off: nat, n: nat)
    requires off + n <= 256 && (off + n <= FREE_BLOCKS || FREE_BLOCKS + 8 <= off) && (off + n <= S_CHECKSUM || S_CHECKSUM + 4 <= off)
    ensures Get(NewSuper(s, free), off, n) == Get(s, off, n)
  {
    hide Get, Put, SelfChecksum;
    SealSeals(Put(s, FREE_BLOCKS, 8, free), S_CHECKSUM);
    GetFrame(NewSuper(s, free), s, off, n);
  }

  lemma NewSuperFree(s: Super, free: nat)
    requires free < U64
    ensures Sealed(NewSuper(s, free), S_CHECKSUM) && Get64(NewSuper(s, free), FREE_BLOCKS) == free
  {
    hide Get, Put, SelfChecksum;
    var x := Put(s, FREE_BLOCKS, 8, free);
    Pow256Values();
    SealSeals(x, S_CHECKSUM);
    GetPut(s, FREE_BLOCKS, 8, free);
    GetFrame(NewSuper(s, free), x, FREE_BLOCKS, 8);
  }

  lemma NewSuperPointers(s: Super, free: nat)
    ensures var r := NewSuper(s, free);
            && BlocksCount(r) == BlocksCount(s) && JournalAddr(r) == JournalAddr(s) && RootInodeAddr(r) == RootInodeAddr(s)
            && Get32(r, 0) == Get32(s, 0) && Get32(r, 4) == Get32(s, 4) && Get32(r, 8) == Get32(s, 8)
            && Get32(r, 32) == Get32(s, 32) && Get32(r, 36) == Get32(s, 36) && Get64(r, 72) == Get64(s, 72)
            && Get32(r, 152) == Get32(s, 152) && Get32(r, 156) == Get32(s, 156)
            && Get64(r, 160) == Get64(s, 160) && Get64(r, 168) == Get64(s, 168) && Get64(r, 176) == Get64(s, 176)
            && Get64(r, 184) == Get64(s, 184) && Get64(r, 192) == Get64(s, 192) && Get64(r, 200) == Get64(s, 200)
  {
    hide Get, NewSuper;
    SuperKept(s, free, 12, 8);
    SuperKept(s, free, 136, 8);
    SuperKept(s, free, 144, 8);
    SuperKept(s, free, 0, 4);
    SuperKept(s, free, 4, 4);
    SuperKept(s, free, 8, 4);
    SuperKept(s, free, 32, 4);
    SuperKept(s, free, 36, 4);
    SuperKept(s, free, 72, 8);
    SuperKept(s, free, 152, 4);
    SuperKept(s, free, 156, 4);
    SuperKept(s, free, 160, 8);
    SuperKept(s, free, 168, 8);
    SuperKept(s, free, 176, 8);
    SuperKept(s, free, 184, 8);
    SuperKept(s, free, 192, 8);
    SuperKept(s, free, 200, 8);
  }

  lemma NewSuperPasses(s: Super, free: nat, logicalBlocks: nat, members: nat, c: Block)
    requires free < U64 && CheckSuper(s, logicalBlocks, members).Zero? && CheckCheckpoint(c, s, BlocksCount(s)).Zero?
    ensures CheckSuper(NewSuper(s, free), logicalBlocks, members).Zero?
    ensures CheckCheckpoint(c, NewSuper(s, free), BlocksCount(s)).Zero?
  {
    hide Get64, Get32, NewSuper, Sealed;
    NewSuperFree(s, free);
    NewSuperPointers(s, free);
  }

  lemma NewJournalPasses(j: Journal)
    ensures JournalSealed(NewJournal(j)) && Get32(NewJournal(j), 36) == 0
  {
    hide Get, Put, DataChecksum;
    var cleared := Put(j, 36, 4, 0);
    var sum := DataChecksum(cleared[..IL_CHECKSUM]);
    DataChecksumBound(cleared[..IL_CHECKSUM]);
    Pow256Values();
    GetPut(cleared, IL_CHECKSUM, 4, sum);
    GetPut(j, 36, 4, 0);
    GetPutOther(cleared, IL_CHECKSUM, 4, sum, 36, 4);
    assert NewJournal(j)[..IL_CHECKSUM] == cleared[..IL_CHECKSUM];
  }

  /** The journal keeps everything but its count and its checksum. */
  lemma JournalKept(j: Journal, k: nat)
    requires k < 48 && !(36 <= k < 44)
    ensures NewJournal(j)[k] == j[k]
  {
    hide DataChecksum;
  }

  lemma NewFreeFields(next: nat, blocks: nat)
    requires next <= blocks < U64
    ensures var r := NewFree(next, blocks);
            && Sealed(r, EN_CHECKSUM) && NodeNext(r) == 0 && NodeCount(r) == (if next < blocks then 1 else 0)
            && (next < blocks ==> ExtentStart(r, 0) == next && ExtentLen(r, 0) == blocks - next)
  {
    hide Get, Put, SelfChecksum;
    var r := NewFree(next, blocks);
    Pow256Values();
    if next < blocks {
      var b1 := PutBlock(ZeroBlock(), 8, 4, 1);
      var b2 := PutBlock(b1, 24, 8, next);
      var b3 := PutBlock(b2, 40, 8, blocks - next);
      SealSeals(b3, EN_CHECKSUM);
      GetPut(ZeroBlock(), 8, 4, 1);
      GetFrame(r, b1, 8, 4);
      GetPut(b1, 24, 8, next);
      GetFrame(r, b2, 24, 8);
      GetPut(b2, 40, 8, blocks - next);
      GetFrame(r, b3, 40, 8);
    } else {
      var b1 := PutBlock(ZeroBlock(), 8, 4, 0);
      SealSeals(b1, EN_CHECKSUM);
      GetPut(ZeroBlock(), 8, 4, 0);
      GetFrame(r, b1, 8, 4);
    }
    GetZero(r, 0, 8);
  }

  /** The free list of a compacted image scans as the space from next on. */
  lemma NewFreeScans(next: nat, blocks: nat)
    requires DATA_START <= next <= blocks < U64
    ensures NodeCount(NewFree(next, blocks)) <= EXTENTS_MAX
    ensures var r := NewFree(next, blocks);
            var f := ScanFree(r, blocks, NodeCount(r));
            && f.Ok?
            && f.value.free == (if next < blocks then [Interval(next, blocks - next)] else [])
            && f.value.total == blocks - next == Total(f.value.free)
  {
    hide NewFree, ExtentStart, ExtentLen, NodeCount, NodeNext, Sealed;
    var r := NewFree(next, blocks);
    NewFreeFields(next, blocks);
    if next < blocks {
      var x := Interval(next, blocks - next);
      assert ScanFree(r, blocks, 0) == Ok(FreeScan([], 0, DATA_START));
      assert ScanFree(r, blocks, 1) == Ok(FreeScan([] + [x], blocks - next, blocks));
      assert [] + [x] == [x] && [x][1..] == [];
    }
  }

  // ------------------------------------------------------------------ tilings of runs

  lemma TilesConcat(a: seq<Interval>, b: seq<Interval>, lo: nat, mid: nat, hi: nat)
    requires lo <= mid <= hi && Tiles(a, lo, mid) && Tiles(b, mid, hi)
    ensures Tiles(a + b, lo, hi)
  {
    forall d: nat
      ensures Hits(a + b, d) == if lo <= d < hi then 1 else 0
    {
      HitsConcat(a, b, d);
      assert Hits(a, d) == (if lo <= d < mid then 1 else 0) && Hits(b, d) == (if mid <= d < hi then 1 else 0);
    }
  }

  lemma TilesOne(at: nat, n: nat)
    ensures Tiles([Interval(at, n)], at, at + n)
  {
    assert [Interval(at, n)][1..] == [];
  }

  lemma TilesNone(at: nat)
    ensures Tiles([], at, at)
  {
  }

  lemma {:induction false} TilesSingles(at: nat, n: nat)
    ensures Tiles(Singles(From(at, n)), at, at + n)
    decreases n
  {
    hide Hits;
    if n == 0 {
      assert Singles(From(at, n)) == [];
      TilesNone(at);
    } else {
      assert Singles(From(at, n)) == Singles(From(at, n - 1)) + [Interval(at + n - 1, 1)];
      TilesSingles(at, n - 1);
      TilesOne(at + n - 1, 1);
      TilesConcat(Singles(From(at, n - 1)), [Interval(at + n - 1, 1)], at, at + n - 1, at + n);
    }
  }

  lemma PackedUseTiles(at: nat, n: nat)
    requires n > 0
    ensures Tiles(PackedUse(at, n), at, at + Cost(n)) && Total(PackedUse(at, n)) == Cost(n)
  {
    hide Tiles;
    var chain := Singles(From(at + 1 + n, SumsNeeded(n)));
    TilesOne(at, 1);
    TilesOne(at + 1, n);
    TilesConcat([Interval(at, 1)], [Interval(at + 1, n)], at, at + 1, at + 1 + n);
    TilesSingles(at + 1 + n, SumsNeeded(n));
    var head := [Interval(at, 1)] + [Interval(at + 1, n)];
    TilesConcat(head, chain, at, at + 1 + n, at + Cost(n));
    assert head == [Interval(at, 1), Interval(at + 1, n)];
    SinglesTotal(From(at + 1 + n, SumsNeeded(n)));
    TotalConcat(head, chain);
    TotalConcat([Interval(at, 1)], [Interval(at + 1, n)]);
    assert [Interval(at, 1)][1..] == [] && [Interval(at + 1, n)][1..] == [];
  }

  // --------------------------------------------------------------- the compacted image

  /** Inode i after rebalance. */
  function PackedInode(img: Image, i: nat): Inode
    requires i < MAX_INODES
  {
    var inode := InodeAt(img, i);
    if i >= 1 && IsFile(img, i) then NewInode(inode, if Blocks(inode) == 0 then 0 else Next(img, i)) else inode
  }

  ghost predicate TableOf(img: Image, table: Block) {
    forall i :: 0 <= i < INODES_READ ==> table[INODE_SIZE * i..INODE_SIZE * i + INODE_SIZE] == PackedInode(img, i)
  }

  function PackedImage(img: Image, table: Block): Image
    requires Loaded(img) && Next(img, MAX_INODES) <= img.blocks
  {
    var next := Next(img, MAX_INODES);
    img.(super := NewSuper(img.super, img.blocks - next), journal := NewJournal(img.journal),
    free := NewFree(next, img.blocks), inodes := table)
  }

  /** rd' shows every nonempty file of the source packed at its planned place. */
  ghost predicate FilesPacked(rd: Reader, img: Image, rd': Reader, n: nat)
    requires n <= MAX_INODES
  {
    forall i :: 1 <= i < n && IsFile(img, i) && Blocks(InodeAt(img, i)) > 0 ==>
                  ShowsAt(rd', Next(img, i), FileImage(Contents(rd, InodeAt(img, i)), Next(img, i)))
  }

  lemma NoInodesBeyond(img: Image, i: nat)
    requires INODES_READ <= i < MAX_INODES
    ensures Mode(InodeAt(img, i)) == 0 && !IsFile(img, i)
  {
    GetZero(InodeAt(img, i), 0, 2);
  }

  /** The compacted image has the inodes of the source, moved. */
  lemma PackedInodeAt(img: Image, table: Block, i: nat)
    requires Loaded(img) && Next(img, MAX_INODES) <= img.blocks && TableOf(img, table) && i < MAX_INODES
    ensures var img' := PackedImage(img, table);
            && InodeAt(img', i) == PackedInode(img, i)
            && Mode(InodeAt(img', i)) == Mode(InodeAt(img, i))
            && Size(InodeAt(img', i)) == Size(InodeAt(img, i)) && Blocks(InodeAt(img', i)) == Blocks(InodeAt(img, i))
            && (IsFile(img', i) <==> IsFile(img, i))
            && (i >= 1 && IsFile(img, i) ==>
                  && Sealed(InodeAt(img', i), I_CHECKSUM)
                  && ExtentRoot(InodeAt(img', i)) == if Blocks(InodeAt(img, i)) == 0 then 0 else Next(img, i))
            && (!(i >= 1 && IsFile(img, i)) ==> InodeAt(img', i) == InodeAt(img, i))
  {
    hide NewInode, BitSet, NewSuper, NewJournal, NewFree, Get64, Get16, Sealed;
    if i >= INODES_READ {
      NoInodesBeyond(img, i);
    }
    if i >= 1 && IsFile(img, i) {
      NextMonotone(img, i, MAX_INODES);
      NewInodeFields(InodeAt(img, i), if Blocks(InodeAt(img, i)) == 0 then 0 else Next(img, i));
    }
  }

  /** The uses the validator will list, in order. */
  function PackedList(img: Image, n: nat): seq<Interval>
    requires n <= MAX_INODES
    decreases n, img
  {
    if n == 0 then []
    else if PackedCost(img, n - 1) == 0 then PackedList(img, n - 1)
    else PackedList(img, n - 1) + PackedUse(Next(img, n - 1), Blocks(InodeAt(img, n - 1)))
  }

  lemma {:induction false} PackedListTiles(img: Image, n: nat)
    requires n <= MAX_INODES
    ensures Tiles(PackedList(img, n), DATA_START, Next(img, n)) && Total(PackedList(img, n)) == Next(img, n) - DATA_START
    decreases n
  {
    hide Tiles, PackedUse, InodeAt, IsFile;
    if n == 0 {
      TilesNone(DATA_START);
    } else {
      PackedListTiles(img, n - 1);
      NextMonotone(img, n - 1, n);
      if PackedCost(img, n - 1) != 0 {
        var use := PackedUse(Next(img, n - 1), Blocks(InodeAt(img, n - 1)));
        PackedUseTiles(Next(img, n - 1), Blocks(InodeAt(img, n - 1)));
        TilesConcat(PackedList(img, n - 1), use, DATA_START, Next(img, n - 1), Next(img, n));
        TotalConcat(PackedList(img, n - 1), use);
      }
    }
  }

  /** Nothing rebalance mishandles: inode 0 is not a file, and no file is empty. */
  ghost predicate Compactible(img: Image) {
    !IsFile(img, 0) && forall i :: 0 <= i < MAX_INODES && IsFile(img, i) ==> Blocks(InodeAt(img, i)) > 0
  }

  /** An accepted source with its facts, as rebalance relies on them. */
  ghost predicate Source(rd: Reader, img: Image) {
    Loaded(img) && Validate(rd, img).Ok?
  }

  lemma SourceFacts(rd: Reader, img: Image)
    requires Source(rd, img)
    ensures Scanned(rd, img) && ScanInodes(rd, img, Refs(img), MAX_INODES) == Ok(TheScan(rd, img))
    ensures Next(img, MAX_INODES) + Get64(img.super, FREE_BLOCKS) <= img.blocks
    ensures NoWrap(TheScan(rd, img).used) && Total(DataUse(TheScan(rd, img))) < U64
  {
    hide Validate, Scanned, ScanInodes, Next, Get64;
    PlanFits(rd, img);
    AcceptedConserves(rd, img);
    ScannedInodes(rd, img);
  }

  lemma {:induction false} PrefixScans(rd: Reader, img: Image, refs: set<nat>, i: nat, n: nat)
    requires i <= n <= MAX_INODES && img.blocks < U64 && ScanInodes(rd, img, refs, n).Ok?
    requires Total(DataUse(ScanInodes(rd, img, refs, n).value)) < U64 && NoWrap(ScanInodes(rd, img, refs, n).value.used)
    ensures ScanInodes(rd, img, refs, i).Ok?
    ensures Total(DataUse(ScanInodes(rd, img, refs, i).value)) < U64 && NoWrap(ScanInodes(rd, img, refs, i).value.used)
    ensures i < n ==> Total(InodeUse(rd, img, i)) < U64 && NoWrap(InodeUse(rd, img, i))
    decreases n
  {
    hide ScanInode, InodeUse;
    if i < n {
      ScanInodesStep(rd, img, refs, n);
      ScanInodesInData(rd, img, refs, n);
      ScanInodesInData(rd, img, refs, n - 1);
      var before := ScanInodes(rd, img, refs, n - 1).value;
      NoWrapSplit(before.used, InodeUse(rd, img, n - 1));
      assert (before.used + InodeUse(rd, img, n - 1))[1..] == before.used[1..] + InodeUse(rd, img, n - 1);
      TotalConcat(before.used[1..], InodeUse(rd, img, n - 1));
      PrefixScans(rd, img, refs, i, n - 1);
    }
  }

  /** What the source scan says of one file. */
  lemma SourceFile(rd: Reader, img: Image, i: nat)
    requires Source(rd, img) && i < MAX_INODES && IsFile(img, i)
    ensures i in Refs(img) && Sealed(InodeAt(img, i), I_CHECKSUM)
    ensures ScanFile(rd, img.blocks, InodeAt(img, i)).Ok? && NoWrap(ScanFile(rd, img.blocks, InodeAt(img, i)).value.used)
    ensures |Contents(rd, InodeAt(img, i))| == Blocks(InodeAt(img, i)) == ScanFile(rd, img.blocks, InodeAt(img, i)).value.blocks
    ensures !SizeBad(Blocks(InodeAt(img, i)), Size(InodeAt(img, i)))
  {
    hide Validate, Scanned, ScanInodes, Next, ScanInode, ScanFile, IsFile, InodeAt, Contents, SizeBad, Sealed;
    SourceFacts(rd, img);
    PrefixScans(rd, img, Refs(img), i, MAX_INODES);
    PrefixScans(rd, img, Refs(img), i + 1, MAX_INODES);
    ScanInodesStep(rd, img, Refs(img), i + 1);
    var before := ScanInodes(rd, img, Refs(img), i).value;
    ScanInodeParts(rd, img, Refs(img), i, before);
    InodeCost(rd, img, Refs(img), i, before);
    ScanFileParts(rd, img.blocks, InodeAt(img, i));
  }

  /** The validator accepts each moved file. */
  lemma PackedFileScans(rd: Reader, img: Image, rd': Reader, table: Block, i: nat)
    requires Source(rd, img) && TableOf(img, table) && Next(img, MAX_INODES) <= img.blocks
    requires FilesPacked(rd, img, rd', MAX_INODES)
    requires 1 <= i < MAX_INODES && IsFile(img, i) && Blocks(InodeAt(img, i)) > 0
    ensures var img' := PackedImage(img, table);
            && ScanFile(rd', img.blocks, InodeAt(img', i)) ==
               Ok(FileScan(PackedUse(Next(img, i), Blocks(InodeAt(img, i))), Blocks(InodeAt(img, i))))
            && Contents(rd', InodeAt(img', i)) == Contents(rd, InodeAt(img, i))
  {
    hide Validate, ScanFile, IsFile, InodeAt, Contents, SizeBad, Sealed, FileImage, PackedImage, PackedUse, PackedInode, Next;
    SourceFile(rd, img, i);
    PackedInodeAt(img, table, i);
    NextMonotone(img, i, MAX_INODES);
    PackedScans(rd', img.blocks, InodeAt(PackedImage(img, table), i), Next(img, i), Contents(rd, InodeAt(img, i)));
    PackedContents(rd', InodeAt(PackedImage(img, table), i), Next(img, i), Contents(rd, InodeAt(img, i)));
  }

  /** The scan of the compacted image: the same counts, and the planned uses. */
  lemma {:induction false} PackedInodesScan(rd: Reader, img: Image, rd': Reader, table: Block, n: nat)
    requires Source(rd, img) && TableOf(img, table) && Next(img, MAX_INODES) <= img.blocks && n <= MAX_INODES
    requires FilesPacked(rd, img, rd', MAX_INODES) && Compactible(img)
    requires ScanInodes(rd, img, Refs(img), n).Ok?
    ensures var s := ScanInodes(rd, img, Refs(img), n).value;
            ScanInodes(rd', PackedImage(img, table), Refs(img), n) ==
            Ok(Scan([Interval(ROOT_DIR_BLOCK, 1)] + PackedList(img, n), s.files, s.directories, s.dataBlocks))
    decreases n
  {
    hide Validate, ScanInode, PackedImage, InodeAt, PackedUse, Next, PackedCost, FilesPacked, TableOf, Compactible, Refs, Loaded, RootDirBlock, PackedList,
      ScanInodes;
    if n == 0 {
      PackedRootDir(img, table);
      PackedListStep(img, 0);
      ScanInodesStart(rd, img, Refs(img));
      ScanInodesStart(rd', PackedImage(img, table), Refs(img));
      LoadedRoot(img);
      assert [Interval(ROOT_DIR_BLOCK, 1)] + [] == [Interval(ROOT_DIR_BLOCK, 1)];
    } else {
      ScanInodesStep(rd, img, Refs(img), n);
      PackedInodesScan(rd, img, rd', table, n - 1);
      PackedInodesNext(rd, img, rd', table, n, ScanInodes(rd, img, Refs(img), n - 1).value);
    }
  }

  lemma PackedInodesNext(rd: Reader, img: Image, rd': Reader, table: Block, n: nat, before: Scan)
    requires Source(rd, img) && TableOf(img, table) && Next(img, MAX_INODES) <= img.blocks && 0 < n <= MAX_INODES
    requires FilesPacked(rd, img, rd', MAX_INODES) && Compactible(img)
    requires ScanInode(rd, img, Refs(img), n - 1, before).Ok?
    requires ScanInodes(rd', PackedImage(img, table), Refs(img), n - 1) ==
             Ok(before.(used := [Interval(ROOT_DIR_BLOCK, 1)] + PackedList(img, n - 1)))
    ensures var s := ScanInode(rd, img, Refs(img), n - 1, before).value;
            ScanInodes(rd', PackedImage(img, table), Refs(img), n) ==
            Ok(Scan([Interval(ROOT_DIR_BLOCK, 1)] + PackedList(img, n), s.files, s.directories, s.dataBlocks))
  {
    hide Validate, ScanInode, PackedImage, InodeAt, PackedUse, Next, PackedCost, FilesPacked, TableOf, Compactible, Refs, Loaded, RootDirBlock, PackedList,
      ScanInodes;
    var list := PackedList(img, n - 1);
    PackedListStep(img, n);
    PackedInodeScans(rd, img, rd', table, n - 1, before, list);
    var use := if PackedCost(img, n - 1) == 0 then [] else PackedUse(Next(img, n - 1), Blocks(InodeAt(img, n - 1)));
    assert [Interval(ROOT_DIR_BLOCK, 1)] + (list + use) == [Interval(ROOT_DIR_BLOCK, 1)] + list + use;
    ScanInodesNext(rd', PackedImage(img, table), Refs(img), n, before.(used := [Interval(ROOT_DIR_BLOCK, 1)] + list));
  }

  lemma ScanInodesStart(rd: Reader, img: Image, refs: set<nat>)
    ensures ScanInodes(rd, img, refs, 0) == Ok(Scan([Interval(RootDirBlock(img), 1)], 0, 0, 0))
  {
    hide RootDirBlock, ScanInode;
  }

  lemma ScanInodesNext(rd: Reader, img: Image, refs: set<nat>, n: nat, before: Scan)
    requires 0 < n <= MAX_INODES && ScanInodes(rd, img, refs, n - 1) == Ok(before)
    ensures ScanInodes(rd, img, refs, n) == ScanInode(rd, img, refs, n - 1, before)
  {
    hide RootDirBlock, ScanInode;
  }

  lemma LoadedRoot(img: Image)
    requires Loaded(img)
    ensures RootDirBlock(img) == ROOT_DIR_BLOCK
  {
  }

  lemma PackedListStep(img: Image, n: nat)
    requires n <= MAX_INODES
    ensures n == 0 ==> PackedList(img, n) == []
    ensures n > 0 ==>
              PackedList(img, n) == PackedList(img, n - 1) +
                                    (if PackedCost(img, n - 1) == 0 then [] else PackedUse(Next(img, n - 1), Blocks(InodeAt(img, n - 1))))
  {
    hide PackedCost, Next, PackedUse, InodeAt;
    if n > 0 {
      assert PackedList(img, n - 1) + [] == PackedList(img, n - 1);
    }
  }

  lemma PackedRootDir(img: Image, table: Block)
    requires Loaded(img) && Next(img, MAX_INODES) <= img.blocks
    ensures RootDirBlock(PackedImage(img, table)) == ROOT_DIR_BLOCK && PackedImage(img, table).bitmap == img.bitmap
    ensures PackedImage(img, table).blocks == img.blocks
  {
    hide NewSuper, NewJournal, NewFree;
  }

  lemma PackedInodeScans(rd: Reader, img: Image, rd': Reader, table: Block, i: nat, before: Scan, list: seq<Interval>)
    requires Source(rd, img) && TableOf(img, table) && Next(img, MAX_INODES) <= img.blocks && i < MAX_INODES
    requires FilesPacked(rd, img, rd', MAX_INODES) && Compactible(img)
    requires ScanInode(rd, img, Refs(img), i, before).Ok?
    ensures var s := ScanInode(rd, img, Refs(img), i, before).value;
            var use := if PackedCost(img, i) == 0 then [] else PackedUse(Next(img, i), Blocks(InodeAt(img, i)));
            ScanInode(rd', PackedImage(img, table), Refs(img), i, before.(used := [Interval(ROOT_DIR_BLOCK, 1)] + list)) ==
            Ok(Scan([Interval(ROOT_DIR_BLOCK, 1)] + list + use, s.files, s.directories, s.dataBlocks))
  {
    hide Validate, ScanFile, InodeAt, PackedUse, FileImage, Contents, PackedImage, Sealed, BitSet, Next, RootDirBlock, IsDir, IsReg;
    PackedRootDir(img, table);
    PackedInodeAt(img, table, i);
    ScanInodeParts(rd, img, Refs(img), i, before);
    RegNotDir(Mode(InodeAt(img, i)));
    if IsFile(img, i) {
      SourceFile(rd, img, i);
      PackedFileScans(rd, img, rd', table, i);
    } else {
      assert [Interval(ROOT_DIR_BLOCK, 1)] + list + [] == [Interval(ROOT_DIR_BLOCK, 1)] + list;
    }
  }

  lemma PackedLoaded(img: Image, table: Block)
    requires Loaded(img) && Next(img, MAX_INODES) <= img.blocks
    ensures var img' := PackedImage(img, table); var next := Next(img, MAX_INODES);
            && Loaded(img') && Refs(img') == Refs(img)
            && Get32(img'.journal, 36) == 0 && NodeNext(img'.free) == 0
            && Get64(img'.super, FREE_BLOCKS) == img.blocks - next
            && ScanFree(img'.free, img'.blocks, NodeCount(img'.free)).Ok?
            && ScanFree(img'.free, img'.blocks, NodeCount(img'.free)).value.free ==
               (if next < img.blocks then [Interval(next, img.blocks - next)] else [])
            && Total(ScanFree(img'.free, img'.blocks, NodeCount(img'.free)).value.free) == img.blocks - next
  {
    hide NewSuper, NewJournal, NewFree, Get64, Get32, ScanDir, ScanFree, Next;
    var next := Next(img, MAX_INODES);
    NextStarts(img, MAX_INODES);
    NewFreeScans(next, img.blocks);
    NewFreeFields(next, img.blocks);
    NewJournalPasses(img.journal);
    NewSuperFree(img.super, img.blocks - next);
  }

  /** The validator accepts the compacted image of an accepted, compactible one. */
  lemma PackedAccepted(rd: Reader, img: Image, rd': Reader, table: Block)
    requires Source(rd, img) && TableOf(img, table) && Next(img, MAX_INODES) <= img.blocks
    requires FilesPacked(rd, img, rd', MAX_INODES) && Compactible(img)
    ensures Loaded(PackedImage(img, table)) && Validate(rd', PackedImage(img, table)).Ok?
    ensures Validate(rd', PackedImage(img, table)).value.report ==
            Validate(rd, img).value.report.(freeBlocks := img.blocks - Next(img, MAX_INODES))
  {
    hide Validate, ScanInodes, PackedImage, Next, PackedList, Get64, Get32, ScanDir, ScanFree, Tiles;
    var img' := PackedImage(img, table);
    var next := Next(img, MAX_INODES);
    SourceFacts(rd, img);
    PackedLoaded(img, table);
    PackedRootDir(img, table);
    PackedInodesScan(rd, img, rd', table, MAX_INODES);
    PackedListTiles(img, MAX_INODES);
    PackedDir(img, table);
    assert Scanned(rd', img');
    var use := PackedList(img, MAX_INODES);
    assert ([Interval(ROOT_DIR_BLOCK, 1)] + use)[1..] == use;
    FreeThenUse(TheFree(rd', img'), use, next, img.blocks);
    ValidateExact(rd', img');
    ReportSays(rd', img');
    ReportSays(rd, img);
  }

  lemma PackedDir(img: Image, table: Block)
    requires Loaded(img) && Next(img, MAX_INODES) <= img.blocks
    ensures PackedImage(img, table).rootDir == img.rootDir
  {
    hide NewSuper, NewJournal, NewFree;
  }

  lemma FreeThenUse(free: seq<Interval>, use: seq<Interval>, next: nat, blocks: nat)
    requires DATA_START <= next <= blocks && Tiles(use, DATA_START, next)
    requires free == if next < blocks then [Interval(next, blocks - next)] else []
    ensures Tiles(free + use, DATA_START, blocks)
  {
    TilesOne(next, blocks - next);
    TilesNone(next);
    forall d: nat
      ensures Hits(free + use, d) == if DATA_START <= d < blocks then 1 else 0
    {
      HitsConcat(free, use, d);
    }
  }

  /** ... and it does not accept the image when inode 0 is a file or some file is
      empty. */
  lemma PackedRejected(rd: Reader, img: Image, rd': Reader, table: Block)
    requires Source(rd, img) && TableOf(img, table) && Next(img, MAX_INODES) <= img.blocks
    requires FilesPacked(rd, img, rd', MAX_INODES) && !Compactible(img)
    ensures Loaded(PackedImage(img, table)) && Validate(rd', PackedImage(img, table)).Err?
  {
    hide Validate, ScanInodes, PackedImage, Next, Get64, Get32, ScanDir, ScanFree, Tiles, IsFile, InodeAt, Scanned;
    var img' := PackedImage(img, table);
    PackedLoaded(img, table);
    PackedRootDir(img, table);
    if Validate(rd', img').Ok? {
      AcceptedConserves(rd', img');
      SourceFacts(rd', img');
      if i :| 1 <= i < MAX_INODES && IsFile(img, i) && Blocks(InodeAt(img, i)) == 0 {
        PackedInodeAt(img, table, i);
        SourceFile(rd', img', i);
        ScanFileParts(rd', img'.blocks, InodeAt(img', i));
      } else {
        PackedInodeAt(img, table, 0);
        ZeroIsFile(img);
        SourceFile(rd', img', 0);
        PackedTotal(rd, img, rd', table, MAX_INODES);
      }
    }
  }

  lemma ZeroIsFile(img: Image)
    requires !Compactible(img)
    requires !exists i :: 1 <= i < MAX_INODES && IsFile(img, i) && Blocks(InodeAt(img, i)) == 0
    ensures IsFile(img, 0)
  {
    hide IsFile, InodeAt;
  }

  /** With inode 0 a file, the uses come to more than the plan. */
  lemma {:induction false} PackedTotal(rd: Reader, img: Image, rd': Reader, table: Block, n: nat)
    requires Source(rd, img) && TableOf(img, table) && Next(img, MAX_INODES) <= img.blocks && 1 <= n <= MAX_INODES
    requires FilesPacked(rd, img, rd', MAX_INODES) && IsFile(img, 0)
    requires forall i :: 1 <= i < MAX_INODES && IsFile(img, i) ==> Blocks(InodeAt(img, i)) > 0
    requires Loaded(PackedImage(img, table)) && ScanInodes(rd', PackedImage(img, table), Refs(img), n).Ok?
    requires Total(DataUse(ScanInodes(rd', PackedImage(img, table), Refs(img), n).value)) < U64
    ensures Total(DataUse(ScanInodes(rd', PackedImage(img, table), Refs(img), n).value)) >= Next(img, n) - DATA_START + 1
    decreases n
  {
    hide Validate, ScanInode, PackedImage, IsFile, InodeAt, InodeUse, PackedCost, FilesPacked, TableOf, Refs, Loaded, Total, DataUse;
    var img' := PackedImage(img, table);
    PackedRootDir(img, table);
    LoadedSize(img);
    ScanInodesStep(rd', img', Refs(img), n);
    ScanInodesInData(rd', img', Refs(img), n);
    ScanInodesInData(rd', img', Refs(img), n - 1);
    var before := ScanInodes(rd', img', Refs(img), n - 1).value;
    TotalGrows(before, ScanInodes(rd', img', Refs(img), n).value, InodeUse(rd', img', n - 1));
    PackedInodeAt(img, table, n - 1);
    if n == 1 {
      InodeCost(rd', img', Refs(img), 0, before);
      NoCostAtZero(img);
    } else {
      PackedTotal(rd, img, rd', table, n - 1);
      PackedInodeUse(rd, img, rd', table, n - 1);
    }
  }

  lemma TotalGrows(before: Scan, after: Scan, use: seq<Interval>)
    requires before.used != [] && after.used == before.used + use
    ensures Total(DataUse(after)) == Total(DataUse(before)) + Total(use)
  {
    assert (before.used + use)[1..] == before.used[1..] + use;
    TotalConcat(before.used[1..], use);
  }

  lemma LoadedSize(img: Image)
    requires Loaded(img)
    ensures img.blocks < U64
  {
  }

  lemma NoCostAtZero(img: Image)
    ensures PackedCost(img, 0) == 0
  {
  }

  lemma PackedInodeUse(rd: Reader, img: Image, rd': Reader, table: Block, i: nat)
    requires Source(rd, img) && TableOf(img, table) && Next(img, MAX_INODES) <= img.blocks && 1 <= i < MAX_INODES
    requires FilesPacked(rd, img, rd', MAX_INODES) && (IsFile(img, i) ==> Blocks(InodeAt(img, i)) > 0)
    ensures Total(InodeUse(rd', PackedImage(img, table), i)) == PackedCost(img, i)
  {
    hide Validate, PackedImage, IsFile, InodeAt, PackedUse, ScanFile, Next, FileImage;
    PackedRootDir(img, table);
    PackedInodeAt(img, table, i);
    if IsFile(img, i) {
      PackedFileScans(rd, img, rd', table, i);
      PackedUseTiles(Next(img, i), Blocks(InodeAt(img, i)));
    }
  }
}
