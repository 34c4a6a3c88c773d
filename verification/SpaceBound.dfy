/** Packing the files of an accepted image never needs more space than they
    already use. */
module SpaceBound {
  import opened Bytes
  import Crc
  import opened Layout
  import opened Intervals
  import opened Validator
  import opened ValidatorLaws
  import opened Acceptance
  import opened Packing

  // ------------------------------------------------------------------ files and extents

  /** Data blocks of the first n extents. */
  function LenSum(node: Block, n: nat): nat
    requires n <= EXTENTS_MAX
    decreases n, node
  {
    if n == 0 then 0 else LenSum(node, n - 1) + ExtentLen(node, n - 1)
  }

  lemma {:induction false} LenSumMonotone(node: Block, i: nat, n: nat)
    requires i < n <= EXTENTS_MAX
    ensures LenSum(node, i) + ExtentLen(node, i) <= LenSum(node, n)
    decreases n
  {
    hide ExtentLen;
    if i + 1 < n {
      LenSumMonotone(node, i, n - 1);
    }
  }

  lemma {:induction false} FileBlocksLength(rd: Reader, node: Block, e: nat, k: nat)
    requires e <= NodeCount(node) <= EXTENTS_MAX && (e < NodeCount(node) ==> k <= ExtentLen(node, e)) && (e == NodeCount(node) ==> k == 0)
    ensures |FileBlocks(rd, node, e, k)| + LenSum(node, e) + k == LenSum(node, NodeCount(node))
    decreases NodeCount(node) - e, if e < NodeCount(node) then ExtentLen(node, e) - k else 0
  {
    hide ExtentLen, NodeCount, ExtentStart;
    if e < NodeCount(node) {
      if k == ExtentLen(node, e) {
        FileBlocksLength(rd, node, e + 1, 0);
      } else {
        FileBlocksLength(rd, node, e, k + 1);
      }
    }
  }

  lemma SumsSubadditive(a: nat, b: nat)
    ensures SumsNeeded(a + b) <= SumsNeeded(a) + SumsNeeded(b)
  {
  }

  lemma SumsBound(n: nat, c: nat)
    requires n <= 1020 * c
    ensures SumsNeeded(n) <= c
  {
  }

  lemma {:induction false} SinglesTotal(chain: seq<nat>)
    ensures Total(Singles(chain)) == |chain|
    decreases |chain|
  {
    if chain != [] {
      SinglesTotal(chain[1..]);
      assert Singles(chain)[1..] == Singles(chain[1..]);
    }
  }

  lemma ExtentCost(rd: Reader, blocks: nat, node: Block, i: nat)
    requires i < EXTENTS_MAX
    requires WalkChain(rd, blocks, ExtentStart(node, i), ExtentLen(node, i), ExtentSums(node, i), 0).Ok?
    ensures Total(ExtentUse(rd, blocks, node, i)) >= ExtentLen(node, i) + SumsNeeded(ExtentLen(node, i))
  {
    hide WalkChain, ExtentStart, ExtentLen, ExtentSums;
    var chain := WalkChain(rd, blocks, ExtentStart(node, i), ExtentLen(node, i), ExtentSums(node, i), 0).value;
    ChainBounds(rd, blocks, ExtentStart(node, i), ExtentLen(node, i), ExtentSums(node, i), 0);
    SumsBound(ExtentLen(node, i), |chain|);
    SinglesTotal(chain);
    var x := Interval(ExtentStart(node, i), ExtentLen(node, i));
    TotalConcat([x], Singles(chain));
    assert [x][1..] == [];
  }

  /** The extents of a file take at least their data and the fewest checksum
      blocks the whole file could have. */
  lemma {:induction false} ScanExtentsCost(rd: Reader, blocks: nat, node: Block, n: nat)
    requires n <= EXTENTS_MAX && ScanExtents(rd, blocks, node, n).Ok? && Total(ScanExtents(rd, blocks, node, n).value.used) < U64
    ensures ScanExtents(rd, blocks, node, n).value.blocks == LenSum(node, n)
    ensures Total(ScanExtents(rd, blocks, node, n).value.used) >= LenSum(node, n) + SumsNeeded(LenSum(node, n))
    decreases n
  {
    hide WalkChain, ExtentBad, ExtentStart, ExtentLen, ExtentSums, ExtentUse;
    if n != 0 {
      ScanExtentsStep(rd, blocks, node, n);
      var before := ScanExtents(rd, blocks, node, n - 1).value;
      TotalConcat(before.used, ExtentUse(rd, blocks, node, n - 1));
      ScanExtentsCost(rd, blocks, node, n - 1);
      ExtentCost(rd, blocks, node, n - 1);
      SumsSubadditive(LenSum(node, n - 1), ExtentLen(node, n - 1));
    }
  }

  /** A scanned file holds as many blocks as its inode says, and takes at least
      what the packed file will. */
  lemma ScanFileCost(rd: Reader, blocks: nat, inode: Inode)
    requires ScanFile(rd, blocks, inode).Ok? && Total(ScanFile(rd, blocks, inode).value.used) < U64
    ensures |Contents(rd, inode)| == Blocks(inode) && ScanFile(rd, blocks, inode).value.blocks == Blocks(inode)
    ensures 1 <= Total(ScanFile(rd, blocks, inode).value.used)
    ensures Cost(Blocks(inode)) <= Total(ScanFile(rd, blocks, inode).value.used)
  {
    hide ScanExtents, ScanFile, SizeBad, ReadExtentNode, FileBlocks;
    ScanFileParts(rd, blocks, inode);
    var root := ExtentRoot(inode);
    var node := rd(root).value;
    var s := ScanExtents(rd, blocks, node, NodeCount(node)).value;
    TotalConcat([Interval(root, 1)], s.used);
    assert [Interval(root, 1)][1..] == [];
    ScanExtentsCost(rd, blocks, node, NodeCount(node));
    FileBlocksLength(rd, node, 0, 0);
  }

  // ------------------------------------------------------------------------- the plan

  /** What inode i takes when packed. Rebalance starts at inode 1. */
  function PackedCost(img: Image, i: nat): nat
    requires i < MAX_INODES
  {
    if i >= 1 && IsFile(img, i) then Cost(Blocks(InodeAt(img, i))) else 0
  }

  /** `next_block` when rebalance reaches inode i. */
  function Next(img: Image, i: nat): nat
    requires i <= MAX_INODES
    decreases i, img
  {
    if i == 0 then DATA_START else Next(img, i - 1) + PackedCost(img, i - 1)
  }

  lemma {:induction false} NextMonotone(img: Image, i: nat, j: nat)
    requires i < j <= MAX_INODES
    ensures DATA_START <= Next(img, i) && Next(img, i) + PackedCost(img, i) <= Next(img, j)
    decreases j
  {
    hide PackedCost;
    if i + 1 < j {
      NextMonotone(img, i, j - 1);
    } else {
      NextStarts(img, i);
    }
  }

  lemma {:induction false} NextStarts(img: Image, i: nat)
    requires i <= MAX_INODES
    ensures DATA_START <= Next(img, i)
    decreases i
  {
    hide PackedCost;
    if i != 0 {
      NextStarts(img, i - 1);
    }
  }

  /** The plan never outgrows what the scanned inodes use. */
  lemma {:induction false} NextBound(rd: Reader, img: Image, refs: set<nat>, n: nat)
    requires n <= MAX_INODES && img.blocks < U64 && ScanInodes(rd, img, refs, n).Ok?
    requires Total(DataUse(ScanInodes(rd, img, refs, n).value)) < U64
    ensures Next(img, n) - DATA_START <= Total(DataUse(ScanInodes(rd, img, refs, n).value))
    decreases n
  {
    hide ScanInode, InodeUse, PackedCost;
    ScanInodesInData(rd, img, refs, n);
    if n != 0 {
      ScanInodesStep(rd, img, refs, n);
      ScanInodesInData(rd, img, refs, n - 1);
      var before := ScanInodes(rd, img, refs, n - 1).value;
      assert (before.used + InodeUse(rd, img, n - 1))[1..] == before.used[1..] + InodeUse(rd, img, n - 1);
      TotalConcat(before.used[1..], InodeUse(rd, img, n - 1));
      NextBound(rd, img, refs, n - 1);
      InodeCost(rd, img, refs, n - 1, before);
    }
  }

  lemma InodeCost(rd: Reader, img: Image, refs: set<nat>, i: nat, before: Scan)
    requires i < MAX_INODES && ScanInode(rd, img, refs, i, before).Ok? && Total(InodeUse(rd, img, i)) < U64
    ensures PackedCost(img, i) <= Total(InodeUse(rd, img, i))
    ensures IsFile(img, i) ==>
              && |Contents(rd, InodeAt(img, i))| == Blocks(InodeAt(img, i)) && 1 <= Total(InodeUse(rd, img, i))
              && ScanFile(rd, img.blocks, InodeAt(img, i)).value.blocks == Blocks(InodeAt(img, i))
  {
    hide ScanInode, ScanFile, InodeAt, Contents, Cost;
    ScanInodeParts(rd, img, refs, i, before);
    if IsFile(img, i) {
      ScanFileCost(rd, img.blocks, InodeAt(img, i));
    }
  }

  /** Compacting an accepted image never runs out of space: the plan ends at or
      before the blocks that were free. */
  lemma PlanFits(rd: Reader, img: Image)
    requires Loaded(img) && Validate(rd, img).Ok?
    ensures Next(img, MAX_INODES) + Get64(img.super, FREE_BLOCKS) <= img.blocks
  {
    hide Validate, ScanInodes, Scanned, Next, Get64;
    AcceptedConserves(rd, img);
    ScanFacts(rd, img);
    ScannedInodes(rd, img);
    NextBound(rd, img, Refs(img), MAX_INODES);
  }

  lemma ScannedInodes(rd: Reader, img: Image)
    requires Loaded(img) && Scanned(rd, img)
    ensures ScanInodes(rd, img, Refs(img), MAX_INODES) == Ok(TheScan(rd, img))
  {
    hide ScanInodes;
  }

  // ------------------------------------------------------------- everything used is read

  /** Every block the intervals hold can be read. */
  ghost predicate AllRead(rd: Reader, s: seq<Interval>) {
    forall b: nat :: Hits(s, b) >= 1 ==> rd(b).Ok?
  }

  lemma AllReadConcat(rd: Reader, a: seq<Interval>, b: seq<Interval>)
    requires AllRead(rd, a) && AllRead(rd, b)
    ensures AllRead(rd, a + b)
  {
    forall d: nat
      ensures Hits(a + b, d) == Hits(a, d) + Hits(b, d)
    {
      HitsConcat(a, b, d);
    }
  }

  lemma {:induction false} ChainRead(rd: Reader, blocks: nat, pstart: nat, len: nat, csum: nat, done: nat, c: nat)
    requires done <= len && WalkChain(rd, blocks, pstart, len, csum, done).Ok?
    requires c in WalkChain(rd, blocks, pstart, len, csum, done).value
    ensures rd(c).Ok?
    decreases len - done
  {
    hide ReadLink;
    if done < len {
      var link := ReadLink(rd, blocks, pstart, len, csum, done).value;
      LinkRead(rd, blocks, pstart, len, csum, done);
      if c != csum {
        ChainRead(rd, blocks, pstart, len, link.next, done + link.entries, c);
      }
    }
  }

  lemma LinkRead(rd: Reader, blocks: nat, pstart: nat, len: nat, csum: nat, done: nat)
    requires done < len && ReadLink(rd, blocks, pstart, len, csum, done).Ok?
    ensures rd(csum).Ok?
  {
    hide CheckSums, Sealed;
  }

  /** Every data block of extent i can be read. */
  ghost predicate ExtentRead(rd: Reader, node: Block, i: nat)
    requires i < EXTENTS_MAX
  {
    forall b: nat :: ExtentStart(node, i) <= b < ExtentStart(node, i) + ExtentLen(node, i) ==> rd(b).Ok?
  }

  lemma ExtentUseRead(rd: Reader, blocks: nat, node: Block, i: nat)
    requires i < EXTENTS_MAX && NoWrap(ExtentUse(rd, blocks, node, i))
    requires WalkChain(rd, blocks, ExtentStart(node, i), ExtentLen(node, i), ExtentSums(node, i), 0).Ok?
    ensures AllRead(rd, ExtentUse(rd, blocks, node, i))
    ensures ExtentRead(rd, node, i)
  {
    hide WalkChain, ExtentStart, ExtentLen, ExtentSums, CheckedBy;
    var pstart, len, csum := ExtentStart(node, i), ExtentLen(node, i), ExtentSums(node, i);
    var chain := WalkChain(rd, blocks, pstart, len, csum, 0).value;
    var x := Interval(pstart, len);
    assert ExtentUse(rd, blocks, node, i) == [x] + Singles(chain);
    assert ([x] + Singles(chain))[0] == x;
    forall b: nat | pstart <= b < pstart + len
      ensures rd(b).Ok?
    {
      var j, s := ChainChecksEachOnce(rd, blocks, pstart, len, csum, b - pstart);
      CheckedRead(rd, chain[j], s, b);
    }
    forall b: nat | Hits([x], b) >= 1
      ensures rd(b).Ok?
    {
      var k := HitSomewhere([x], b);
    }
    forall b: nat | Hits(Singles(chain), b) >= 1
      ensures rd(b).Ok?
    {
      var k := HitSomewhere(Singles(chain), b);
      assert chain[k] == b;
      ChainRead(rd, blocks, pstart, len, csum, 0, b);
    }
    AllReadConcat(rd, [x], Singles(chain));
  }

  lemma CheckedRead(rd: Reader, c: nat, s: nat, b: nat)
    requires CheckedBy(rd, c, s, b) && b < U64
    ensures rd(b).Ok?
  {
    hide Crc.DataChecksum, SumAt;
  }

  lemma {:induction false} ScanExtentsRead(rd: Reader, blocks: nat, node: Block, n: nat)
    requires n <= EXTENTS_MAX && ScanExtents(rd, blocks, node, n).Ok? && NoWrap(ScanExtents(rd, blocks, node, n).value.used)
    ensures AllRead(rd, ScanExtents(rd, blocks, node, n).value.used)
    ensures forall e :: 0 <= e < n ==> ExtentRead(rd, node, e)
    decreases n
  {
    hide WalkChain, ExtentBad, ExtentStart, ExtentLen, ExtentSums, ExtentUse, Hits, ExtentRead;
    if n != 0 {
      ScanExtentsStep(rd, blocks, node, n);
      var before := ScanExtents(rd, blocks, node, n - 1).value.used;
      NoWrapSplit(before, ExtentUse(rd, blocks, node, n - 1));
      ScanExtentsRead(rd, blocks, node, n - 1);
      ExtentUseRead(rd, blocks, node, n - 1);
      AllReadConcat(rd, before, ExtentUse(rd, blocks, node, n - 1));
    } else {
      NothingHit();
    }
  }

  /** The blocks of every extent of a scanned file can be read. */
  lemma ScanFileRead(rd: Reader, blocks: nat, inode: Inode)
    requires ScanFile(rd, blocks, inode).Ok? && NoWrap(ScanFile(rd, blocks, inode).value.used)
    ensures AllRead(rd, ScanFile(rd, blocks, inode).value.used)
    ensures ReadExtentNode(rd, ExtentRoot(inode)).Ok?
    ensures var node := ReadExtentNode(rd, ExtentRoot(inode)).value;
            && NodeNext(node) == 0 && NodeCount(node) <= EXTENTS_MAX && Contents(rd, inode) == FileBlocks(rd, node, 0, 0)
            && forall e :: 0 <= e < NodeCount(node) ==> ExtentRead(rd, node, e)
  {
    hide ScanExtents, ScanFile, SizeBad, ReadExtentNode, FileBlocks, Hits, ExtentRead;
    ScanFileParts(rd, blocks, inode);
    var root := ExtentRoot(inode);
    var node := rd(root).value;
    var s := ScanExtents(rd, blocks, node, NodeCount(node)).value;
    NoWrapSplit([Interval(root, 1)], s.used);
    ScanExtentsRead(rd, blocks, node, NodeCount(node));
    forall b: nat | Hits([Interval(root, 1)], b) >= 1
      ensures rd(b).Ok?
    {
      var k := HitSomewhere([Interval(root, 1)], b);
    }
    AllReadConcat(rd, [Interval(root, 1)], s.used);
  }

  lemma {:induction false} ScanInodesRead(rd: Reader, img: Image, refs: set<nat>, n: nat)
    requires n <= MAX_INODES && img.blocks < U64 && ScanInodes(rd, img, refs, n).Ok?
    requires NoWrap(ScanInodes(rd, img, refs, n).value.used)
    ensures AllRead(rd, DataUse(ScanInodes(rd, img, refs, n).value))
    decreases n
  {
    hide ScanInode, InodeUse, Hits;
    ScanInodesInData(rd, img, refs, n);
    if n != 0 {
      ScanInodesStep(rd, img, refs, n);
      ScanInodesInData(rd, img, refs, n - 1);
      var before := ScanInodes(rd, img, refs, n - 1).value;
      NoWrapSplit(before.used, InodeUse(rd, img, n - 1));
      assert (before.used + InodeUse(rd, img, n - 1))[1..] == before.used[1..] + InodeUse(rd, img, n - 1);
      ScanInodesRead(rd, img, refs, n - 1);
      InodeUseRead(rd, img, refs, n - 1);
      AllReadConcat(rd, before.used[1..], InodeUse(rd, img, n - 1));
    } else {
      NothingHit();
      assert DataUse(ScanInodes(rd, img, refs, 0).value) == [];
    }
  }

  lemma NothingHit()
    ensures forall b: nat :: Hits([], b) == 0
  {
  }

  lemma InodeUseRead(rd: Reader, img: Image, refs: set<nat>, i: nat)
    requires i < MAX_INODES && NoWrap(InodeUse(rd, img, i))
    ensures AllRead(rd, InodeUse(rd, img, i))
  {
    hide ScanFile, InodeAt, IsFile, Hits;
    NothingHit();
    if IsFile(img, i) && ScanFile(rd, img.blocks, InodeAt(img, i)).Ok? {
      ScanFileRead(rd, img.blocks, InodeAt(img, i));
    }
  }

  // --------------------------------------------------------------------- double counting

  /** Hits on the blocks below n. */
  function HitsUpTo(s: seq<Interval>, n: nat): nat
    decreases n, s
  {
    if n == 0 then 0 else HitsUpTo(s, n - 1) + Hits(s, n - 1)
  }

  lemma {:induction false} HitsUpToEmpty(n: nat)
    ensures HitsUpTo([], n) == 0
    decreases n
  {
    if n != 0 {
      HitsUpToEmpty(n - 1);
    }
  }

  lemma {:induction false} HitsUpToCons(s: seq<Interval>, n: nat)
    requires s != []
    ensures HitsUpTo(s, n) == HitsUpTo(s[1..], n) + Overlap(s[0], n)
    decreases n
  {
    if n != 0 {
      HitsUpToCons(s, n - 1);
    }
  }

  /** Blocks of x below n. */
  function Overlap(x: Interval, n: nat): nat {
    if n <= x.start then 0 else if n <= x.start + x.len then n - x.start else x.len
  }

  /** The total length of intervals that end by n is the number of hits below n. */
  lemma {:induction false} TotalCounts(s: seq<Interval>, n: nat)
    requires forall i :: 0 <= i < |s| ==> s[i].start + s[i].len <= n
    ensures HitsUpTo(s, n) == Total(s)
    decreases |s|
  {
    if s == [] {
      HitsUpToEmpty(n);
    } else {
      HitsUpToCons(s, n);
      TotalCounts(s[1..], n);
    }
  }

  lemma {:induction false} HitsUpToBound(s: seq<Interval>, lo: nat, n: nat)
    requires forall d: nat :: Hits(s, d) <= if d < lo then 0 else 1
    ensures HitsUpTo(s, n) <= if n < lo then 0 else n - lo
    decreases n
  {
    hide Hits;
    if n != 0 {
      HitsUpToBound(s, lo, n - 1);
      assert Hits(s, n - 1) <= if n - 1 < lo then 0 else 1;
    }
  }

  /** Disjoint intervals inside [lo, hi) are no longer than it. */
  lemma TotalWithin(s: seq<Interval>, lo: nat, hi: nat)
    requires lo <= hi && forall i :: 0 <= i < |s| ==> s[i].len > 0
    requires forall d: nat :: Hits(s, d) <= if lo <= d < hi then 1 else 0
    ensures Total(s) <= hi - lo
  {
    forall i | 0 <= i < |s|
      ensures s[i].start + s[i].len <= hi
    {
      HitCounted(s, s[i].start + s[i].len - 1, i);
    }
    TotalCounts(s, hi);
    HitsUpToBound(s, lo, hi);
  }
}
