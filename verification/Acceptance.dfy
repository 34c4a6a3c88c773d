/** "No double allocation, no lost space": the validator accepts exactly the
    images whose used and free intervals tile the data area. */
module Acceptance {
  import opened Bytes
  import opened Layout
  import opened Intervals
  import opened Validator
  import opened ValidatorLaws

  /** What a successful `aetherfs_image_load` guarantees of the image. */
  predicate Loaded(img: Image) {
    && |img.super| == SUPER_SIZE && |img.journal| == JOURNAL_SIZE
    && DATA_START <= img.blocks < U64
    && RootDirBlock(img) == ROOT_DIR_BLOCK
    && NodeCount(img.free) <= EXTENTS_MAX
  }

  /** Every interval starts in the data area and passed its bound check. */
  ghost predicate InDataArea(s: seq<Interval>, blocks: nat) {
    forall i :: 0 <= i < |s| ==> Bounded(s[i], blocks) && s[i].start >= DATA_START
  }

  // ---------------------------------------------------------- bounds of what is listed

  lemma InDataAreaConcat(a: seq<Interval>, b: seq<Interval>, blocks: nat)
    requires InDataArea(a, blocks) && InDataArea(b, blocks)
    ensures InDataArea(a + b, blocks)
  {
  }

  lemma ExtentUseInData(rd: Reader, blocks: nat, node: Block, i: nat, cursor: nat)
    requires i < EXTENTS_MAX && blocks < U64 && !ExtentBad(blocks, node, i, cursor)
    requires WalkChain(rd, blocks, ExtentStart(node, i), ExtentLen(node, i), ExtentSums(node, i), 0).Ok?
    ensures InDataArea(ExtentUse(rd, blocks, node, i), blocks)
  {
    hide WalkChain;
    ChainBounds(rd, blocks, ExtentStart(node, i), ExtentLen(node, i), ExtentSums(node, i), 0);
  }

  lemma {:induction false} ScanExtentsInData(rd: Reader, blocks: nat, node: Block, n: nat)
    requires n <= EXTENTS_MAX && blocks < U64 && ScanExtents(rd, blocks, node, n).Ok?
    ensures InDataArea(ScanExtents(rd, blocks, node, n).value.used, blocks)
    decreases n
  {
    hide WalkChain, ExtentBad, ExtentStart, ExtentLen, ExtentSums, ExtentUse, Bounded;
    if n != 0 {
      ScanExtentsStep(rd, blocks, node, n);
      var before := ScanExtents(rd, blocks, node, n - 1).value;
      ScanExtentsInData(rd, blocks, node, n - 1);
      ExtentUseInData(rd, blocks, node, n - 1, before.blocks);
      InDataAreaConcat(before.used, ExtentUse(rd, blocks, node, n - 1), blocks);
    }
  }

  lemma InodeUseInData(rd: Reader, img: Image, i: nat)
    requires i < MAX_INODES && img.blocks < U64
    ensures InDataArea(InodeUse(rd, img, i), img.blocks)
  {
    hide ScanFile, ScanExtents, InodeAt, IsFile;
    if IsFile(img, i) && ScanFile(rd, img.blocks, InodeAt(img, i)).Ok? {
      ScanFileParts(rd, img.blocks, InodeAt(img, i));
      var root := ExtentRoot(InodeAt(img, i));
      var node := rd(root).value;
      ScanExtentsInData(rd, img.blocks, node, NodeCount(node));
      InDataAreaConcat([Interval(root, 1)], ScanExtents(rd, img.blocks, node, NodeCount(node)).value.used, img.blocks);
    }
  }

  /** All that is used besides the root directory block. */
  ghost function DataUse(s: Scan): seq<Interval> {
    if s.used == [] then [] else s.used[1..]
  }

  lemma {:induction false} ScanInodesInData(rd: Reader, img: Image, refs: set<nat>, n: nat)
    requires n <= MAX_INODES && img.blocks < U64 && ScanInodes(rd, img, refs, n).Ok?
    ensures var s := ScanInodes(rd, img, refs, n).value;
            && s.used != [] && s.used[0] == Interval(RootDirBlock(img), 1)
            && InDataArea(DataUse(s), img.blocks)
    decreases n
  {
    hide ScanInode, InodeUse, Bounded;
    if n != 0 {
      ScanInodesStep(rd, img, refs, n);
      ScanInodesInData(rd, img, refs, n - 1);
      InodeUseInData(rd, img, n - 1);
      var before := ScanInodes(rd, img, refs, n - 1).value;
      assert (before.used + InodeUse(rd, img, n - 1))[1..] == before.used[1..] + InodeUse(rd, img, n - 1);
      InDataAreaConcat(before.used[1..], InodeUse(rd, img, n - 1), img.blocks);
    }
  }

  lemma {:induction false} ScanFreeBounded(node: Block, blocks: nat, n: nat)
    requires n <= EXTENTS_MAX && ScanFree(node, blocks, n).Ok?
    ensures var f := ScanFree(node, blocks, n).value;
            AllBounded(f.free, blocks) && f.total == Total(f.free) % U64
    decreases n
  {
    hide Get64;
    if n != 0 {
      ScanFreeBounded(node, blocks, n - 1);
      var before := ScanFree(node, blocks, n - 1).value;
      var x := Interval(ExtentStart(node, n - 1), ExtentLen(node, n - 1));
      TotalConcat(before.free, [x]);
      assert [x][1..] == [];
      AddMod(Total(before.free), x.len);
    }
  }

  lemma AddMod(a: nat, b: nat)
    ensures Add64(a % U64, b) == (a + b) % U64
  {
    assert a == a / U64 * U64 + a % U64;
    assert a + b == a / U64 * U64 + (a % U64 + b);
    ModMultiple(a / U64, a % U64 + b);
  }

  lemma {:induction false} ModMultiple(q: nat, x: nat)
    ensures (q * U64 + x) % U64 == x % U64
    decreases q
  {
    if q != 0 {
      ModMultiple(q - 1, x);
      assert q * U64 + x == (q - 1) * U64 + x + U64;
    }
  }

  // ------------------------------------------------------- what the coverage list counts

  /** Used intervals below the data area do not reach into it. */
  ghost predicate LowStaysLow(s: seq<Interval>) {
    forall i :: 0 <= i < |s| ==> s[i].len > 0 && (s[i].start < DATA_START ==> s[i].start + s[i].len <= DATA_START)
  }

  lemma {:induction false} CoverageHits(free: seq<Interval>, used: seq<Interval>, d: nat)
    requires LowStaysLow(used)
    ensures Hits(Coverage(free, used), d) == Hits(free, d) + (if d < DATA_START then 0 else Hits(used, d))
    decreases |used|
  {
    if used != [] {
      var n := |used| - 1;
      CoverageHits(free, used[..n], d);
      assert used == used[..n] + [used[n]];
      HitsConcat(used[..n], [used[n]], d);
      HitsConcat(Coverage(free, used[..n]), [used[n]], d);
      assert [used[n]][1..] == [];
    }
  }

  lemma {:induction false} CoverageBounded(free: seq<Interval>, used: seq<Interval>, blocks: nat)
    requires AllBounded(free, blocks)
    requires forall i :: 0 <= i < |used| ==> used[i].start < DATA_START || Bounded(used[i], blocks)
    ensures AllBounded(Coverage(free, used), blocks)
    decreases |used|
  {
    hide Bounded;
    if used != [] {
      CoverageBounded(free, used[..|used| - 1], blocks);
    }
  }

  lemma {:induction false} HitsBelow(s: seq<Interval>, d: nat)
    requires forall i :: 0 <= i < |s| ==> s[i].start > d
    ensures Hits(s, d) == 0
    decreases |s|
  {
    if s != [] {
      HitsBelow(s[1..], d);
    }
  }

  lemma SortedMember(s: seq<Interval>, i: nat) returns (j: nat)
    requires i < |Sort(s)|
    ensures j < |s| && s[j] == Sort(s)[i]
  {
    SortSorts(s);
    assert Sort(s)[i] in multiset(s);
    j :| 0 <= j < |s| && s[j] == Sort(s)[i];
  }

  /** The coverage sweep passes exactly when free space and data use tile the data
      area. */
  lemma SweepIffTiles(free: seq<Interval>, used: seq<Interval>, blocks: nat)
    requires DATA_START <= blocks < U64 && AllBounded(free, blocks)
    requires used != [] && used[0] == Interval(ROOT_DIR_BLOCK, 1) && InDataArea(used[1..], blocks)
    ensures Sweep(Sort(Coverage(free, Sort(used))), DATA_START) == Ok(blocks) <==>
            Tiles(free + used[1..], DATA_START, blocks)
    ensures Tiles(free + used[1..], DATA_START, blocks) ==> Total(free) + Total(used[1..]) == blocks - DATA_START
  {
    hide Sweep, Sort, Coverage;
    var sorted := Sort(used);
    var cover := Coverage(free, sorted);
    forall i | 0 <= i < |sorted|
      ensures sorted[i].len > 0
      ensures sorted[i].start < DATA_START ==> sorted[i].start + sorted[i].len <= DATA_START
      ensures sorted[i].start < DATA_START || Bounded(sorted[i], blocks)
    {
      var j := SortedMember(used, i);
      assert j > 0 ==> used[1..][j - 1] == used[j];
    }
    CoverageBounded(free, sorted, blocks);
    assert AllBounded(free + used[1..], blocks);
    SortSweepExact(cover, blocks);
    SortSweepExact(free + used[1..], blocks);
    forall d: nat
      ensures Hits(cover, d) == Hits(free + used[1..], d)
    {
      CoverageHits(free, sorted, d);
      SortCounts(used, d);
      HitsConcat(free, used[1..], d);
      if d < DATA_START {
        HitsBelow(used[1..], d);
      }
    }
    assert Tiles(cover, DATA_START, blocks) <==> Tiles(free + used[1..], DATA_START, blocks) by {
      SameHits(cover, free + used[1..], DATA_START, blocks);
    }
    TotalConcat(free, used[1..]);
  }

  lemma SameHits(a: seq<Interval>, b: seq<Interval>, lo: nat, hi: nat)
    requires forall d: nat :: Hits(a, d) == Hits(b, d)
    ensures Tiles(a, lo, hi) <==> Tiles(b, lo, hi)
  {
    if Tiles(b, lo, hi) {
      forall d: nat
        ensures Hits(a, d) == if lo <= d < hi then 1 else 0
      {
        assert Hits(b, d) == if lo <= d < hi then 1 else 0;
      }
    }
  }

  // --------------------------------------------------------------------------- the law

  /** The stages before the sweep succeed. */
  predicate Scanned(rd: Reader, img: Image)
    requires Loaded(img)
  {
    && Get32(img.journal, 36) == 0 && BitSet(img.bitmap, 0)
    && ScanDir(img.rootDir, 0, DirScan({}, false, false)).Ok?
    && ScanInodes(rd, img, Refs(img), MAX_INODES).Ok?
    && NodeNext(img.free) == 0
    && ScanFree(img.free, img.blocks, NodeCount(img.free)).Ok?
  }

  /** The inodes the root directory names. */
  function Refs(img: Image): set<nat> {
    var dir := ScanDir(img.rootDir, 0, DirScan({}, false, false));
    if dir.Ok? then dir.value.refs else {}
  }

  function TheScan(rd: Reader, img: Image): Scan
    requires Loaded(img) && Scanned(rd, img)
  {
    ScanInodes(rd, img, Refs(img), MAX_INODES).value
  }

  function TheFree(rd: Reader, img: Image): seq<Interval>
    requires Loaded(img) && Scanned(rd, img)
  {
    ScanFree(img.free, img.blocks, NodeCount(img.free)).value.free
  }

  lemma ScanFacts(rd: Reader, img: Image)
    requires Loaded(img) && Scanned(rd, img)
    ensures var s := TheScan(rd, img);
            && s.used != [] && s.used[0] == Interval(ROOT_DIR_BLOCK, 1)
            && InDataArea(DataUse(s), img.blocks)
            && AllBounded(TheFree(rd, img), img.blocks)
            && ScanFree(img.free, img.blocks, NodeCount(img.free)).value.total == Total(TheFree(rd, img)) % U64
  {
    hide ScanInodes, ScanFree, ScanDir;
    ScanInodesInData(rd, img, Refs(img), MAX_INODES);
    ScanFreeBounded(img.free, img.blocks, NodeCount(img.free));
  }

  lemma ValidateUnfolds(rd: Reader, img: Image)
    requires Loaded(img)
    ensures Validate(rd, img).Ok? <==>
            && Scanned(rd, img)
            && Sweep(Sort(Coverage(TheFree(rd, img), Sort(TheScan(rd, img).used))), DATA_START) == Ok(img.blocks)
            && Get64(img.super, FREE_BLOCKS) == ScanFree(img.free, img.blocks, NodeCount(img.free)).value.total
  {
    hide ScanInodes, ScanFree, ScanDir, Sweep, Sort, Coverage, BitSet, Get64, Get32;
  }

  /** The validator accepts a loaded image exactly when every structure scans, used
      and free intervals tile [8, blocks) without wrap, gap or overlap, and the
      superblock counts the free blocks. */
  lemma ValidateExact(rd: Reader, img: Image)
    requires Loaded(img)
    ensures Validate(rd, img).Ok? <==>
            && Scanned(rd, img)
            && Tiles(TheFree(rd, img) + DataUse(TheScan(rd, img)), DATA_START, img.blocks)
            && Get64(img.super, FREE_BLOCKS) == Total(TheFree(rd, img))
  {
    hide Validate, Scanned, ScanInodes, ScanFree, ScanDir, Sweep, Sort, Coverage, Get64, Tiles, TheScan, TheFree;
    ValidateUnfolds(rd, img);
    if Scanned(rd, img) {
      ScanFacts(rd, img);
      SweepIffTiles(TheFree(rd, img), TheScan(rd, img).used, img.blocks);
    }
  }

  /** What an accepting run reports. */
  lemma ReportSays(rd: Reader, img: Image)
    requires Loaded(img) && Validate(rd, img).Ok?
    ensures Scanned(rd, img)
    ensures var s := TheScan(rd, img);
            Validate(rd, img).value.report ==
            Report(s.files, s.directories, BitmapSetBits(img.bitmap), s.dataBlocks, Get64(img.super, FREE_BLOCKS))
  {
    hide ScanInodes, ScanFree, ScanDir, Sweep, Sort, Coverage, BitSet, Get64, Get32;
  }

  /** Conservation: in an accepted image used blocks and free blocks add up to the
      data area. */
  lemma AcceptedConserves(rd: Reader, img: Image)
    requires Loaded(img) && Validate(rd, img).Ok?
    ensures Scanned(rd, img)
    ensures Total(DataUse(TheScan(rd, img))) + Get64(img.super, FREE_BLOCKS) == img.blocks - DATA_START
    ensures forall d :: DATA_START <= d < img.blocks ==>
                          Hits(TheFree(rd, img), d) + Hits(DataUse(TheScan(rd, img)), d) == 1
    ensures forall d: nat :: Hits(DataUse(TheScan(rd, img)), d) <= if DATA_START <= d < img.blocks then 1 else 0
    ensures NoWrap(TheScan(rd, img).used)
  {
    hide ScanInodes, ScanFree, ScanDir, Sweep, Sort, Coverage, Hits, Scanned, Validate, Get64, TheScan, TheFree;
    ValidateExact(rd, img);
    ScanFacts(rd, img);
    var free, used := TheFree(rd, img), DataUse(TheScan(rd, img));
    SweepIffTiles(free, TheScan(rd, img).used, img.blocks);
    forall d: nat
      ensures Hits(free, d) + Hits(used, d) == if DATA_START <= d < img.blocks then 1 else 0
    {
      HitsConcat(free, used, d);
    }
    TiledNoWrap(used, img.blocks);
    var all := TheScan(rd, img).used;
    forall i | 0 <= i < |all|
      ensures all[i].start + all[i].len <= U64
    {
      assert i > 0 ==> all[i] == used[i - 1];
    }
  }

  lemma TiledNoWrap(s: seq<Interval>, blocks: nat)
    requires blocks < U64 && InDataArea(s, blocks)
    requires forall d: nat :: Hits(s, d) <= if DATA_START <= d < blocks then 1 else 0
    ensures forall i :: 0 <= i < |s| ==> s[i].start + s[i].len <= blocks
  {
    forall i | 0 <= i < |s|
      ensures s[i].start + s[i].len <= blocks
    {
      HitCounted(s, s[i].start + s[i].len - 1, i);
    }
  }
}
