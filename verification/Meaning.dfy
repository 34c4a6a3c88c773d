/** What the validator accepts, condition by condition. */
module Meaning {
  import opened Bytes
  import opened Layout
  import opened Intervals
  import opened V = Validator
  import opened ValidatorLaws
  import opened Acceptance
  import opened DirectoryLaws
  import opened Packing
  import opened SpaceBound
  import opened Compaction
  import opened PoolBlocks

  // ---------------------------------------------------------------------------------- files

  /** Extent e continues its file, lies in the data area, and its blocks match the
      sums of its chain. */
  predicate ExtentGood(rd: Reader, blocks: nat, node: Block, e: nat)
    requires e < EXTENTS_MAX
  {
    && ExtentLen(node, e) > 0 && ExtentLogical(node, e) == LenSum(node, e) % U64
    && DATA_START <= ExtentStart(node, e) && Add64(ExtentStart(node, e), ExtentLen(node, e)) <= blocks
    && DATA_START <= ExtentSums(node, e) < blocks
    && WalkChain(rd, blocks, ExtentStart(node, e), ExtentLen(node, e), ExtentSums(node, e), 0).Ok?
  }

  lemma {:induction false} ScanExtentsExact(rd: Reader, blocks: nat, node: Block, n: nat)
    requires n <= EXTENTS_MAX
    ensures ScanExtents(rd, blocks, node, n).Ok? <==> forall e :: 0 <= e < n ==> ExtentGood(rd, blocks, node, e)
    ensures ScanExtents(rd, blocks, node, n).Ok? ==> ScanExtents(rd, blocks, node, n).value.blocks == LenSum(node, n) % U64
    decreases n
  {
    hide WalkChain, ExtentStart, ExtentLen, ExtentSums, ExtentLogical, Singles;
    if n != 0 {
      ScanExtentsExact(rd, blocks, node, n - 1);
      AddMod(LenSum(node, n - 1), ExtentLen(node, n - 1));
      assert ScanExtents(rd, blocks, node, n).Ok? <==> ScanExtents(rd, blocks, node, n - 1).Ok? && ExtentGood(rd, blocks, node, n - 1);
    }
  }

  /** The inode describes a file: one sealed extent node, good extents, and a block
      count and size that fit them. */
  predicate FileGood(rd: Reader, blocks: nat, inode: Inode) {
    var root := ExtentRoot(inode);
    && DATA_START <= root < blocks && rd(root).Ok?
    && var node := rd(root).value;
       && Sealed(node, 12) && NodeNext(node) == 0 && NodeCount(node) <= EXTENTS_MAX
       && (forall e :: 0 <= e < NodeCount(node) ==> ExtentGood(rd, blocks, node, e))
       && Blocks(inode) == LenSum(node, NodeCount(node)) % U64 && !SizeBad(Blocks(inode), Size(inode))
  }

  lemma ScanFileExact(rd: Reader, blocks: nat, inode: Inode)
    ensures ScanFile(rd, blocks, inode).Ok? <==> FileGood(rd, blocks, inode)
  {
    hide ScanExtents, ExtentGood, Sealed, SizeBad, LenSum, NodeCount, NodeNext, ExtentRoot, Blocks, Size;
    var root := ExtentRoot(inode);
    if rd(root).Ok? && NodeCount(rd(root).value) <= EXTENTS_MAX {
      ScanExtentsExact(rd, blocks, rd(root).value, NodeCount(rd(root).value));
    }
  }

  // --------------------------------------------------------------------------------- inodes

  /** A free inode has mode 0. A used one is sealed, and it is either inode 0 and the
      root directory, or a file that the root directory names. */
  predicate InodeGood(rd: Reader, img: Image, refs: set<nat>, i: nat)
    requires i < MAX_INODES
  {
    var inode := InodeAt(img, i);
    if !BitSet(img.bitmap, i) then Mode(inode) == 0
    else
      && Mode(inode) != 0 && Sealed(inode, 100)
      && if IsDir(Mode(inode)) then i == 0 && ExtentRoot(inode) == RootDirBlock(img)
         else IsReg(Mode(inode)) && i in refs && FileGood(rd, img.blocks, inode)
  }

  /** Inodes are 512 bytes each of the one table block that is read; the rest of the
      table is zero. */
  lemma TableExact(img: Image, i: nat, k: nat)
    requires i < MAX_INODES && k < 512
    ensures InodeAt(img, i)[k] == if i < 8 then img.inodes[512 * i + k] else 0
  {
  }

  /** The regular files among the first n inodes. */
  function Files(img: Image, n: nat): nat
    requires n <= MAX_INODES
    decreases n, img
  {
    if n == 0 then 0 else Files(img, n - 1) + (if IsFile(img, n - 1) then 1 else 0)
  }

  lemma ScanInodeExact(rd: Reader, img: Image, refs: set<nat>, i: nat, before: Scan)
    requires i < MAX_INODES
    ensures ScanInode(rd, img, refs, i, before).Ok? <==> InodeGood(rd, img, refs, i)
    ensures ScanInode(rd, img, refs, i, before).Ok? ==>
              var s := ScanInode(rd, img, refs, i, before).value;
              && s.files == before.files + (if IsFile(img, i) then 1 else 0)
              && s.directories == before.directories + (if i == 0 && BitSet(img.bitmap, 0) && !IsFile(img, 0) then 1 else 0)
  {
    hide ScanFile, FileGood, InodeAt, BitSet, Sealed, IsDir, IsReg, RootDirBlock, Mode, ExtentRoot;
    ScanFileExact(rd, img.blocks, InodeAt(img, i));
    RegNotDir(Mode(InodeAt(img, i)));
  }

  /** The inode scan accepts exactly good inode tables, and counts their files and
      the root directory. */
  lemma {:induction false} ScanInodesExact(rd: Reader, img: Image, refs: set<nat>, n: nat)
    requires n <= MAX_INODES
    ensures ScanInodes(rd, img, refs, n).Ok? <==> forall i :: 0 <= i < n ==> InodeGood(rd, img, refs, i)
    ensures ScanInodes(rd, img, refs, n).Ok? ==>
              var s := ScanInodes(rd, img, refs, n).value;
              && s.files == Files(img, n)
              && s.directories == if n > 0 && BitSet(img.bitmap, 0) && !IsFile(img, 0) then 1 else 0
    decreases n
  {
    hide ScanInode, InodeGood, IsFile, BitSet, RootDirBlock;
    if n != 0 {
      ScanInodesExact(rd, img, refs, n - 1);
      if ScanInodes(rd, img, refs, n - 1).Ok? {
        ScanInodeExact(rd, img, refs, n - 1, ScanInodes(rd, img, refs, n - 1).value);
      }
      assert ScanInodes(rd, img, refs, n).Ok? <==> ScanInodes(rd, img, refs, n - 1).Ok? && InodeGood(rd, img, refs, n - 1);
    }
  }

  // ------------------------------------------------------------------------------- free list

  /** Where free extent i may start. */
  function FreeFrom(node: Block, i: nat): nat
    requires i <= EXTENTS_MAX
  {
    if i == 0 then DATA_START else Add64(ExtentStart(node, i - 1), ExtentLen(node, i - 1))
  }

  predicate FreeGood(node: Block, blocks: nat, i: nat)
    requires i < EXTENTS_MAX
  {
    && ExtentLen(node, i) > 0 && FreeFrom(node, i) <= ExtentStart(node, i)
    && Add64(ExtentStart(node, i), ExtentLen(node, i)) <= blocks
  }

  function FreeIntervals(node: Block, n: nat): seq<Interval>
    requires n <= EXTENTS_MAX
  {
    seq(n, i requires 0 <= i < n => Interval(ExtentStart(node, i), ExtentLen(node, i)))
  }

  lemma {:induction false} ScanFreeExact(node: Block, blocks: nat, n: nat)
    requires n <= EXTENTS_MAX
    ensures ScanFree(node, blocks, n).Ok? <==> forall i :: 0 <= i < n ==> FreeGood(node, blocks, i)
    ensures ScanFree(node, blocks, n).Ok? ==>
              && ScanFree(node, blocks, n).value.free == FreeIntervals(node, n)
              && ScanFree(node, blocks, n).value.lastEnd == FreeFrom(node, n)
    decreases n
  {
    hide ExtentStart, ExtentLen;
    if n != 0 {
      ScanFreeExact(node, blocks, n - 1);
      assert ScanFree(node, blocks, n).Ok? <==> ScanFree(node, blocks, n - 1).Ok? && FreeGood(node, blocks, n - 1);
      if ScanFree(node, blocks, n).Ok? {
        assert FreeIntervals(node, n) == FreeIntervals(node, n - 1) + [Interval(ExtentStart(node, n - 1), ExtentLen(node, n - 1))];
      }
    }
  }

  // ------------------------------------------------------------------------------ the verdict

  /** The journal has nothing outstanding, the root directory is a directory block,
      every inode and every free extent is good. */
  ghost predicate ImageGood(rd: Reader, img: Image)
    requires Loaded(img)
  {
    && Get32(img.journal, 36) == 0 && BitSet(img.bitmap, 0)
    && (exists offs :: Directory(img.rootDir, offs))
    && (forall i :: 0 <= i < MAX_INODES ==> InodeGood(rd, img, Refs(img), i))
    && NodeNext(img.free) == 0 && (forall i :: 0 <= i < NodeCount(img.free) ==> FreeGood(img.free, img.blocks, i))
  }

  lemma ScannedExact(rd: Reader, img: Image)
    requires Loaded(img)
    ensures Scanned(rd, img) <==> ImageGood(rd, img)
    ensures Scanned(rd, img) ==> TheFree(rd, img) == FreeIntervals(img.free, NodeCount(img.free))
  {
    hide ScanDir, ScanInodes, ScanFree, InodeGood, FreeGood, Directory, Get32, BitSet, NodeNext, NodeCount, Refs, FreeIntervals;
    DirectoryExact(img.rootDir);
    ScanInodesExact(rd, img, Refs(img), MAX_INODES);
    ScanFreeExact(img.free, img.blocks, NodeCount(img.free));
  }

  /** The validator accepts exactly the good images whose free extents and used
      intervals tile the data area and whose superblock counts the free blocks. */
  lemma AcceptsExactly(rd: Reader, img: Image)
    requires Loaded(img)
    ensures Validate(rd, img).Ok? <==>
            && ImageGood(rd, img) && Scanned(rd, img)
            && Tiles(FreeIntervals(img.free, NodeCount(img.free)) + DataUse(TheScan(rd, img)), DATA_START, img.blocks)
            && Get64(img.super, FREE_BLOCKS) == Total(FreeIntervals(img.free, NodeCount(img.free)))
  {
    hide Validate, Scanned, ImageGood, TheScan, TheFree, Tiles, Total, FreeIntervals, Get64, NodeCount;
    ValidateExact(rd, img);
    ScannedExact(rd, img);
  }

  /** A file's extents follow each other from logical block 0, their lengths add up
      to the inode's block count, and its size ends in its last block, counting blocks
      modulo 2^52, where byte sizes wrap. */
  ghost predicate LaidOut(rd: Reader, inode: Inode) {
    && rd(ExtentRoot(inode)).Ok? && NodeCount(rd(ExtentRoot(inode)).value) <= EXTENTS_MAX
    && var node := rd(ExtentRoot(inode)).value;
       && LenSum(node, NodeCount(node)) == Blocks(inode)
       && (forall e :: 0 <= e < NodeCount(node) ==> ExtentLogical(node, e) == LenSum(node, e))
       && (Blocks(inode) == 0 ==> Size(inode) == 0)
       && (Blocks(inode) > 0 ==>
             var last := Blocks(inode) % ADDRESSABLE; last > 0 && (last - 1) * 4096 < Size(inode) <= last * 4096)
  }

  /** In an accepted image nothing wraps. */
  lemma AcceptedFile(rd: Reader, img: Image, i: nat)
    requires Source(rd, img) && i < MAX_INODES && IsFile(img, i)
    ensures FileGood(rd, img.blocks, InodeAt(img, i)) && LaidOut(rd, InodeAt(img, i))
  {
    hide Validate, InodeAt, IsFile, ScanFile, Contents, NodeCount, ExtentLogical, LenSum, Sealed, ExtentRoot, Blocks, Size, SizeBad, FileGood;
    var inode := InodeAt(img, i);
    SourceFile(rd, img, i);
    ScanFileExact(rd, img.blocks, inode);
    BlocksBound(inode);
    SizeFits(Blocks(inode), Size(inode));
    FileLength(rd, img.blocks, inode);
    ExtentsFollow(rd, img.blocks, inode);
  }

  lemma BlocksBound(inode: Inode)
    ensures Blocks(inode) < U64
  {
  }

  lemma SizeFits(blocks: nat, size: nat)
    ensures !SizeBad(blocks, size) <==>
            if blocks == 0 then size == 0
            else var last := blocks % ADDRESSABLE; last > 0 && (last - 1) * 4096 < size <= last * 4096
  {
    BytesWrap(blocks);
    if blocks > 0 {
      BytesWrap(blocks - 1);
    }
  }

  lemma BytesWrap(n: nat)
    ensures n * 4096 % U64 == n % ADDRESSABLE * 4096
    ensures n > 0 ==> (n - 1) % ADDRESSABLE == if n % ADDRESSABLE == 0 then ADDRESSABLE - 1 else n % ADDRESSABLE - 1
  {
    var q, m := n / ADDRESSABLE, n % ADDRESSABLE;
    assert n == q * ADDRESSABLE + m && n * 4096 == q * U64 + m * 4096;
  }

  lemma ExtentsFollow(rd: Reader, blocks: nat, inode: Inode)
    requires FileGood(rd, blocks, inode) && LenSum(rd(ExtentRoot(inode)).value, NodeCount(rd(ExtentRoot(inode)).value)) < U64
    ensures var node := rd(ExtentRoot(inode)).value;
            NodeCount(node) <= EXTENTS_MAX && forall e :: 0 <= e < NodeCount(node) ==> ExtentLogical(node, e) == LenSum(node, e)
  {
    hide WalkChain, ExtentStart, ExtentLen, ExtentSums, ExtentLogical, NodeCount, NodeNext, Sealed, ExtentRoot, Blocks, Size, SizeBad, LenSum;
    var node := rd(ExtentRoot(inode)).value;
    forall e | 0 <= e < NodeCount(node)
      ensures ExtentLogical(node, e) == LenSum(node, e)
    {
      assert ExtentGood(rd, blocks, node, e);
      LenSumMonotone(node, e, NodeCount(node));
    }
  }

  lemma FileLength(rd: Reader, blocks: nat, inode: Inode)
    requires FileGood(rd, blocks, inode)
    ensures rd(ExtentRoot(inode)).Ok? && NodeCount(rd(ExtentRoot(inode)).value) <= EXTENTS_MAX
    ensures var node := rd(ExtentRoot(inode)).value; |Contents(rd, inode)| == LenSum(node, NodeCount(node))
  {
    hide ExtentRoot, NodeCount, ExtentGood, Sealed, SizeBad, FileBlocks;
    FileBlocksLength(rd, rd(ExtentRoot(inode)).value, 0, 0);
  }
}
