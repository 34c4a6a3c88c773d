/** Who owns a block: in an accepted image every block of the data area is free or
    belongs to exactly one place of exactly one file. */
module Ownership {
  import opened Bytes
  import opened Layout
  import opened Intervals
  import opened V = Validator
  import opened ValidatorLaws
  import opened Acceptance
  import opened SpaceBound
  import opened Compaction
  import opened Meaning

  /** A place in a file: its extent node, data block k of an extent, or block k of an
      extent's checksum chain. */
  datatype Place = Root | Data(extent: nat, k: nat) | Sum(extent: nat, k: nat)

  function NodeOf(rd: Reader, inode: Inode): Block {
    if rd(ExtentRoot(inode)).Ok? then rd(ExtentRoot(inode)).value else ZeroBlock()
  }

  function ChainOf(rd: Reader, blocks: nat, node: Block, e: nat): seq<nat>
    requires e < EXTENTS_MAX
  {
    var chain := WalkChain(rd, blocks, ExtentStart(node, e), ExtentLen(node, e), ExtentSums(node, e), 0);
    if chain.Ok? then chain.value else []
  }

  predicate HasExtentPlace(rd: Reader, blocks: nat, node: Block, p: Place) {
    && !p.Root? && p.extent < EXTENTS_MAX && p.extent < NodeCount(node)
    && if p.Data? then p.k < ExtentLen(node, p.extent) else p.k < |ChainOf(rd, blocks, node, p.extent)|
  }

  /** The file has the place. */
  predicate PlaceIn(rd: Reader, blocks: nat, inode: Inode, p: Place) {
    p.Root? || HasExtentPlace(rd, blocks, NodeOf(rd, inode), p)
  }

  function ExtentBlockAt(rd: Reader, blocks: nat, node: Block, p: Place): nat
    requires HasExtentPlace(rd, blocks, node, p)
  {
    if p.Data? then ExtentStart(node, p.extent) + p.k else ChainOf(rd, blocks, node, p.extent)[p.k]
  }

  /** The block at a place. */
  function BlockAt(rd: Reader, blocks: nat, inode: Inode, p: Place): nat
    requires PlaceIn(rd, blocks, inode, p)
  {
    if p.Root? then ExtentRoot(inode) else ExtentBlockAt(rd, blocks, NodeOf(rd, inode), p)
  }

  // -------------------------------------------------------------------------------- one extent

  /** Two positions of a list that hold a block count twice. */
  lemma TwoHits(s: seq<Interval>, j: nat, k: nat, d: nat)
    requires j < k < |s| && Holds(s[j], d) == 1 && Holds(s[k], d) == 1
    ensures Hits(s, d) >= 2
  {
    hide Hits, Holds;
    var a, b := s[..k], s[k..];
    assert s == a + b;
    HitsConcat(a, b, d);
    HitCounted(a, d, j);
    HitCounted(b, d, 0);
  }

  lemma SingleHolds(c: nat)
    ensures Holds(Interval(c, 1), c) == 1
  {
  }

  lemma ExtentUseIs(rd: Reader, blocks: nat, node: Block, e: nat)
    requires e < EXTENTS_MAX
    ensures ExtentUse(rd, blocks, node, e) == [Interval(ExtentStart(node, e), ExtentLen(node, e))] + Singles(ChainOf(rd, blocks, node, e))
  {
    hide WalkChain, ExtentStart, ExtentLen, ExtentSums;
  }

  lemma ExtentHit(rd: Reader, blocks: nat, node: Block, p: Place)
    requires HasExtentPlace(rd, blocks, node, p)
    ensures Hits(ExtentUse(rd, blocks, node, p.extent), ExtentBlockAt(rd, blocks, node, p)) >= 1
  {
    hide ChainOf, ExtentStart, ExtentLen, ExtentUse, Hits;
    var e, d := p.extent, ExtentBlockAt(rd, blocks, node, p);
    var chain := ChainOf(rd, blocks, node, e);
    ExtentUseIs(rd, blocks, node, e);
    HitsConcat([Interval(ExtentStart(node, e), ExtentLen(node, e))], Singles(chain), d);
    if p.Data? {
      OneHit(Interval(ExtentStart(node, e), ExtentLen(node, e)), d);
    } else {
      SinglesHit(chain, p.k);
    }
  }

  lemma ExtentTwice(rd: Reader, blocks: nat, node: Block, p: Place, q: Place)
    requires HasExtentPlace(rd, blocks, node, p) && HasExtentPlace(rd, blocks, node, q) && p != q && p.extent == q.extent
    requires ExtentBlockAt(rd, blocks, node, p) == ExtentBlockAt(rd, blocks, node, q)
    ensures Hits(ExtentUse(rd, blocks, node, p.extent), ExtentBlockAt(rd, blocks, node, p)) >= 2
  {
    hide ChainOf, ExtentStart, ExtentLen, ExtentUse, Hits, Holds;
    var e, d := p.extent, ExtentBlockAt(rd, blocks, node, p);
    var chain := ChainOf(rd, blocks, node, e);
    var x := Interval(ExtentStart(node, e), ExtentLen(node, e));
    ExtentUseIs(rd, blocks, node, e);
    HitsConcat([x], Singles(chain), d);
    if p.Data? || q.Data? {
      OneHit(x, d);
      SinglesHit(chain, if p.Data? then q.k else p.k);
    } else {
      SingleHolds(d);
      TwoHits(Singles(chain), if p.k < q.k then p.k else q.k, if p.k < q.k then q.k else p.k, d);
    }
  }

  lemma ExtentOwner(rd: Reader, blocks: nat, node: Block, e: nat, d: nat) returns (p: Place)
    requires e < EXTENTS_MAX && e < NodeCount(node) && Hits(ExtentUse(rd, blocks, node, e), d) >= 1
    ensures HasExtentPlace(rd, blocks, node, p) && ExtentBlockAt(rd, blocks, node, p) == d
  {
    hide ChainOf, ExtentStart, ExtentLen, ExtentUse, Hits, NodeCount;
    ExtentUseIs(rd, blocks, node, e);
    var i := HitSomewhere(ExtentUse(rd, blocks, node, e), d);
    if i == 0 {
      p := Data(e, d - ExtentStart(node, e));
    } else {
      p := Sum(e, i - 1);
    }
  }

  // ------------------------------------------------------------------------------- all extents

  lemma {:induction false} ExtentsInclude(rd: Reader, blocks: nat, node: Block, n: nat, e: nat, d: nat)
    requires e < n <= EXTENTS_MAX && ScanExtents(rd, blocks, node, n).Ok?
    ensures Hits(ScanExtents(rd, blocks, node, n).value.used, d) >= Hits(ExtentUse(rd, blocks, node, e), d)
    decreases n
  {
    hide WalkChain, ExtentBad, ExtentStart, ExtentLen, ExtentSums, Hits, ExtentUse;
    ScanExtentsStep(rd, blocks, node, n);
    HitsConcat(ScanExtents(rd, blocks, node, n - 1).value.used, ExtentUse(rd, blocks, node, n - 1), d);
    if e < n - 1 {
      ExtentsInclude(rd, blocks, node, n - 1, e, d);
    }
  }

  lemma {:induction false} ExtentsIncludeTwo(rd: Reader, blocks: nat, node: Block, n: nat, e: nat, f: nat, d: nat)
    requires e < f < n <= EXTENTS_MAX && ScanExtents(rd, blocks, node, n).Ok?
    ensures Hits(ScanExtents(rd, blocks, node, n).value.used, d) >=
            Hits(ExtentUse(rd, blocks, node, e), d) + Hits(ExtentUse(rd, blocks, node, f), d)
    decreases n
  {
    hide WalkChain, ExtentBad, ExtentStart, ExtentLen, ExtentSums, Hits, ExtentUse;
    ScanExtentsStep(rd, blocks, node, n);
    HitsConcat(ScanExtents(rd, blocks, node, n - 1).value.used, ExtentUse(rd, blocks, node, n - 1), d);
    if f < n - 1 {
      ExtentsIncludeTwo(rd, blocks, node, n - 1, e, f, d);
    } else {
      ExtentsInclude(rd, blocks, node, n - 1, e, d);
    }
  }

  lemma {:induction false} ExtentFor(rd: Reader, blocks: nat, node: Block, n: nat, d: nat) returns (e: nat)
    requires n <= EXTENTS_MAX && ScanExtents(rd, blocks, node, n).Ok? && Hits(ScanExtents(rd, blocks, node, n).value.used, d) >= 1
    ensures e < n && Hits(ExtentUse(rd, blocks, node, e), d) >= 1
    decreases n
  {
    hide WalkChain, ExtentBad, ExtentStart, ExtentLen, ExtentSums, ExtentUse;
    if n > 0 {
      ScanExtentsStep(rd, blocks, node, n);
      HitsConcat(ScanExtents(rd, blocks, node, n - 1).value.used, ExtentUse(rd, blocks, node, n - 1), d);
      if Hits(ExtentUse(rd, blocks, node, n - 1), d) >= 1 {
        e := n - 1;
      } else {
        e := ExtentFor(rd, blocks, node, n - 1, d);
      }
    }
  }

  // ---------------------------------------------------------------------------------- one file

  lemma FileUseIs(rd: Reader, blocks: nat, inode: Inode)
    requires ScanFile(rd, blocks, inode).Ok?
    ensures var node := NodeOf(rd, inode); var s := ScanExtents(rd, blocks, node, NodeCount(node));
            NodeCount(node) <= EXTENTS_MAX && s.Ok? && ScanFile(rd, blocks, inode).value.used == [Interval(ExtentRoot(inode), 1)] + s.value.used
  {
    hide ScanFile, ScanExtents, ReadExtentNode, SizeBad;
    ScanFileParts(rd, blocks, inode);
  }

  lemma FileHit(rd: Reader, blocks: nat, inode: Inode, p: Place)
    requires ScanFile(rd, blocks, inode).Ok? && PlaceIn(rd, blocks, inode, p)
    ensures Hits(ScanFile(rd, blocks, inode).value.used, BlockAt(rd, blocks, inode, p)) >= 1
  {
    hide ScanFile, ScanExtents, Hits, NodeOf, NodeCount, ExtentBlockAt, ExtentUse;
    FileUseIs(rd, blocks, inode);
    var node, d := NodeOf(rd, inode), BlockAt(rd, blocks, inode, p);
    var root := Interval(ExtentRoot(inode), 1);
    HitsConcat([root], ScanExtents(rd, blocks, node, NodeCount(node)).value.used, d);
    if p.Root? {
      OneHit(root, d);
    } else {
      ExtentHit(rd, blocks, node, p);
      ExtentsInclude(rd, blocks, node, NodeCount(node), p.extent, d);
    }
  }

  /** Two places of a file with the same block use it twice. */
  lemma FileTwice(rd: Reader, blocks: nat, inode: Inode, p: Place, q: Place)
    requires ScanFile(rd, blocks, inode).Ok? && PlaceIn(rd, blocks, inode, p) && PlaceIn(rd, blocks, inode, q) && p != q
    requires BlockAt(rd, blocks, inode, p) == BlockAt(rd, blocks, inode, q)
    ensures Hits(ScanFile(rd, blocks, inode).value.used, BlockAt(rd, blocks, inode, p)) >= 2
  {
    hide ScanFile, ScanExtents, Hits, NodeOf, NodeCount, ExtentBlockAt, ExtentUse;
    FileUseIs(rd, blocks, inode);
    var node, d := NodeOf(rd, inode), BlockAt(rd, blocks, inode, p);
    var root, n := Interval(ExtentRoot(inode), 1), NodeCount(node);
    HitsConcat([root], ScanExtents(rd, blocks, node, n).value.used, d);
    if p.Root? || q.Root? {
      var r := if p.Root? then q else p;
      OneHit(root, d);
      ExtentHit(rd, blocks, node, r);
      ExtentsInclude(rd, blocks, node, n, r.extent, d);
    } else if p.extent == q.extent {
      ExtentTwice(rd, blocks, node, p, q);
      ExtentsInclude(rd, blocks, node, n, p.extent, d);
    } else {
      ExtentHit(rd, blocks, node, p);
      ExtentHit(rd, blocks, node, q);
      if p.extent < q.extent {
        ExtentsIncludeTwo(rd, blocks, node, n, p.extent, q.extent, d);
      } else {
        ExtentsIncludeTwo(rd, blocks, node, n, q.extent, p.extent, d);
      }
    }
  }

  lemma FileOwner(rd: Reader, blocks: nat, inode: Inode, d: nat) returns (p: Place)
    requires ScanFile(rd, blocks, inode).Ok? && Hits(ScanFile(rd, blocks, inode).value.used, d) >= 1
    ensures PlaceIn(rd, blocks, inode, p) && BlockAt(rd, blocks, inode, p) == d
  {
    hide ScanFile, ScanExtents, Hits, NodeOf, NodeCount, ExtentBlockAt, ExtentUse, HasExtentPlace;
    FileUseIs(rd, blocks, inode);
    var node := NodeOf(rd, inode);
    if ExtentRoot(inode) == d {
      p := Root;
    } else {
      HitsConcat([Interval(ExtentRoot(inode), 1)], ScanExtents(rd, blocks, node, NodeCount(node)).value.used, d);
      NotRoot(ExtentRoot(inode), d);
      var e := ExtentFor(rd, blocks, node, NodeCount(node), d);
      p := ExtentOwner(rd, blocks, node, e, d);
      NotARoot(rd, blocks, node, p);
    }
  }

  lemma NotRoot(r: nat, d: nat)
    requires r != d
    ensures Hits([Interval(r, 1)], d) == 0
  {
    assert [Interval(r, 1)][1..] == [];
  }

  lemma NotARoot(rd: Reader, blocks: nat, node: Block, p: Place)
    requires HasExtentPlace(rd, blocks, node, p)
    ensures !p.Root?
  {
  }

  // --------------------------------------------------------------------------------- all files

  lemma {:induction false} InodesInclude(rd: Reader, img: Image, refs: set<nat>, n: nat, i: nat, d: nat)
    requires i < n <= MAX_INODES && img.blocks < U64 && ScanInodes(rd, img, refs, n).Ok?
    ensures Hits(DataUse(ScanInodes(rd, img, refs, n).value), d) >= Hits(InodeUse(rd, img, i), d)
    decreases n
  {
    hide ScanInode, InodeUse, Hits;
    InodesStep(rd, img, refs, n, d);
    if i < n - 1 {
      InodesInclude(rd, img, refs, n - 1, i, d);
    }
  }

  lemma InodesStep(rd: Reader, img: Image, refs: set<nat>, n: nat, d: nat)
    requires 0 < n <= MAX_INODES && img.blocks < U64 && ScanInodes(rd, img, refs, n).Ok?
    ensures ScanInodes(rd, img, refs, n - 1).Ok?
    ensures Hits(DataUse(ScanInodes(rd, img, refs, n).value), d) ==
            Hits(DataUse(ScanInodes(rd, img, refs, n - 1).value), d) + Hits(InodeUse(rd, img, n - 1), d)
  {
    hide ScanInode, InodeUse, Hits;
    ScanInodesStep(rd, img, refs, n);
    ScanInodesInData(rd, img, refs, n - 1);
    var before, last := ScanInodes(rd, img, refs, n - 1).value, InodeUse(rd, img, n - 1);
    assert (before.used + last)[1..] == before.used[1..] + last;
    HitsConcat(before.used[1..], last, d);
  }

  lemma {:induction false} InodesIncludeTwo(rd: Reader, img: Image, refs: set<nat>, n: nat, i: nat, j: nat, d: nat)
    requires i < j < n <= MAX_INODES && img.blocks < U64 && ScanInodes(rd, img, refs, n).Ok?
    ensures Hits(DataUse(ScanInodes(rd, img, refs, n).value), d) >= Hits(InodeUse(rd, img, i), d) + Hits(InodeUse(rd, img, j), d)
    decreases n
  {
    hide ScanInode, InodeUse, Hits;
    InodesStep(rd, img, refs, n, d);
    if j < n - 1 {
      InodesIncludeTwo(rd, img, refs, n - 1, i, j, d);
    } else {
      InodesInclude(rd, img, refs, n - 1, i, d);
    }
  }

  lemma {:induction false} InodeFor(rd: Reader, img: Image, refs: set<nat>, n: nat, d: nat) returns (i: nat)
    requires n <= MAX_INODES && img.blocks < U64 && ScanInodes(rd, img, refs, n).Ok?
    requires Hits(DataUse(ScanInodes(rd, img, refs, n).value), d) >= 1
    ensures i < n && Hits(InodeUse(rd, img, i), d) >= 1
    decreases n
  {
    hide ScanInode, InodeUse;
    NothingHit();
    assert DataUse(Scan([Interval(RootDirBlock(img), 1)], 0, 0, 0)) == [];
    if n > 0 {
      InodesStep(rd, img, refs, n, d);
      if Hits(InodeUse(rd, img, n - 1), d) >= 1 {
        i := n - 1;
      } else {
        i := InodeFor(rd, img, refs, n - 1, d);
      }
    }
  }

  // -------------------------------------------------------------------------------- the theorem

  /** Place p of file i holds block d. */
  predicate OwnedBy(rd: Reader, img: Image, i: nat, p: Place, d: nat) {
    && i < MAX_INODES && IsFile(img, i)
    && PlaceIn(rd, img.blocks, InodeAt(img, i), p) && BlockAt(rd, img.blocks, InodeAt(img, i), p) == d
  }

  /** An accepted file scans, and its intervals are its part of the scan. */
  lemma AcceptedUse(rd: Reader, img: Image, i: nat)
    requires Loaded(img) && Validate(rd, img).Ok? && i < MAX_INODES && IsFile(img, i)
    ensures ScanFile(rd, img.blocks, InodeAt(img, i)).Ok?
    ensures InodeUse(rd, img, i) == ScanFile(rd, img.blocks, InodeAt(img, i)).value.used
  {
    hide Validate, Scanned, ScanInodes, ScanFile, InodeAt, IsFile, ScanInode, Get64, Hits;
    AcceptedConserves(rd, img);
    ScannedInodes(rd, img);
    InodeAccepted(rd, img, Refs(img), MAX_INODES, i);
  }

  lemma {:induction false} InodeAccepted(rd: Reader, img: Image, refs: set<nat>, n: nat, i: nat)
    requires i < n <= MAX_INODES && IsFile(img, i) && ScanInodes(rd, img, refs, n).Ok?
    ensures ScanFile(rd, img.blocks, InodeAt(img, i)).Ok?
    decreases n
  {
    hide ScanFile, InodeAt, IsFile, ScanInode, InodeUse;
    ScanInodesStep(rd, img, refs, n);
    if i == n - 1 {
      ScanInodeParts(rd, img, refs, i, ScanInodes(rd, img, refs, n - 1).value);
    } else {
      InodeAccepted(rd, img, refs, n - 1, i);
    }
  }

  lemma OwnerHits(rd: Reader, img: Image, i: nat, p: Place, d: nat)
    requires Loaded(img) && Validate(rd, img).Ok? && OwnedBy(rd, img, i, p, d)
    ensures Hits(InodeUse(rd, img, i), d) >= 1
  {
    hide Validate, ScanFile, InodeAt, IsFile, PlaceIn, BlockAt, InodeUse, Hits;
    AcceptedUse(rd, img, i);
    FileHit(rd, img.blocks, InodeAt(img, i), p);
  }

  /** No block has two owners: extent nodes, data blocks and chain blocks of all files
      are distinct, within a file and across files. */
  lemma OwnerUnique(rd: Reader, img: Image, i: nat, p: Place, j: nat, q: Place, d: nat)
    requires Loaded(img) && Validate(rd, img).Ok? && OwnedBy(rd, img, i, p, d) && OwnedBy(rd, img, j, q, d)
    ensures i == j && p == q
  {
    hide Validate, Scanned, ScanInodes, ScanFile, InodeAt, IsFile, PlaceIn, BlockAt, InodeUse, Hits, Get64;
    AcceptedConserves(rd, img);
    ScannedInodes(rd, img);
    OwnerHits(rd, img, i, p, d);
    OwnerHits(rd, img, j, q, d);
    if i < j {
      InodesIncludeTwo(rd, img, Refs(img), MAX_INODES, i, j, d);
    } else if j < i {
      InodesIncludeTwo(rd, img, Refs(img), MAX_INODES, j, i, d);
    } else if p != q {
      AcceptedUse(rd, img, i);
      FileTwice(rd, img.blocks, InodeAt(img, i), p, q);
      InodesInclude(rd, img, Refs(img), MAX_INODES, i, d);
    }
  }

  /** A block of the data area has an owner exactly when no free extent holds it, and
      nothing outside the data area is owned. */
  lemma OwnedOrFree(rd: Reader, img: Image, d: nat)
    requires Loaded(img) && Validate(rd, img).Ok?
    ensures Scanned(rd, img)
    ensures (exists i: nat, p :: OwnedBy(rd, img, i, p, d)) <==> DATA_START <= d < img.blocks && Hits(TheFree(rd, img), d) == 0
  {
    hide Validate, Scanned, ScanInodes, InodeAt, IsFile, PlaceIn, BlockAt, InodeUse, Hits, Get64, TheFree, OwnedBy;
    AcceptedConserves(rd, img);
    ScannedInodes(rd, img);
    if exists i: nat, p :: OwnedBy(rd, img, i, p, d) {
      var i: nat, p :| OwnedBy(rd, img, i, p, d);
      OwnerHits(rd, img, i, p, d);
      OwnerIndex(rd, img, i, p, d);
      InodesInclude(rd, img, Refs(img), MAX_INODES, i, d);
    }
    if DATA_START <= d < img.blocks && Hits(TheFree(rd, img), d) == 0 {
      var i := InodeFor(rd, img, Refs(img), MAX_INODES, d);
      var p := InodeOwner(rd, img, i, d);
      assert OwnedBy(rd, img, i, p, d);
    }
  }

  lemma OwnerIndex(rd: Reader, img: Image, i: nat, p: Place, d: nat)
    requires OwnedBy(rd, img, i, p, d)
    ensures i < MAX_INODES
  {
  }

  lemma InodeOwner(rd: Reader, img: Image, i: nat, d: nat) returns (p: Place)
    requires Loaded(img) && Validate(rd, img).Ok? && i < MAX_INODES && Hits(InodeUse(rd, img, i), d) >= 1
    ensures OwnedBy(rd, img, i, p, d)
  {
    hide Validate, ScanFile, InodeAt, IsFile, PlaceIn, BlockAt, Hits;
    NothingHit();
    AcceptedUse(rd, img, i);
    p := FileOwner(rd, img.blocks, InodeAt(img, i), d);
  }

  /** Every extent of an accepted file has a chain of at least a 1020th as many blocks
      as it has data blocks. */
  lemma AcceptedChain(rd: Reader, img: Image, i: nat, e: nat)
    requires Source(rd, img) && i < MAX_INODES && IsFile(img, i)
    requires e < EXTENTS_MAX && e < NodeCount(NodeOf(rd, InodeAt(img, i)))
    ensures var node := NodeOf(rd, InodeAt(img, i));
            |ChainOf(rd, img.blocks, node, e)| <= ExtentLen(node, e) <= SUMS_PER_BLOCK * |ChainOf(rd, img.blocks, node, e)|
  {
    hide Validate, InodeAt, IsFile, WalkChain, ExtentStart, ExtentLen, ExtentSums, ExtentLogical, LenSum, Sealed, NodeCount, NodeNext, SizeBad, ExtentRoot;
    AcceptedFile(rd, img, i);
    var node := NodeOf(rd, InodeAt(img, i));
    assert ExtentGood(rd, img.blocks, node, e);
    ChainBounds(rd, img.blocks, ExtentStart(node, e), ExtentLen(node, e), ExtentSums(node, e), 0);
  }
}
