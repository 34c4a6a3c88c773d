/** Silent damage to file data does not pass: a burst of up to four bytes in one
    data block of an accepted image makes validation fail with -EILSEQ. */
module Corruption {
  import opened Bytes
  import opened Crc
  import opened Layout
  import opened Intervals
  import opened Validator
  import opened ValidatorLaws
  import opened Acceptance

  /** rd' reads the first `lim` blocks as rd does, except that block d has a
      different checksum. */
  ghost predicate Damaged(rd: Reader, rd': Reader, lim: nat, d: nat) {
    && lim <= U64 && rd(d).Ok? && rd'(d).Ok? && DataChecksum(rd(d).value) != DataChecksum(rd'(d).value)
    && forall b: nat :: b < lim && b != d ==> rd(b) == rd'(b)
  }

  ghost predicate Small(s: seq<Interval>, lim: nat) {
    forall i :: 0 <= i < |s| ==> s[i].start + s[i].len <= lim
  }

  lemma SmallSplit(a: seq<Interval>, b: seq<Interval>, lim: nat)
    requires Small(a + b, lim)
    ensures Small(a, lim) && Small(b, lim)
  {
    forall i | 0 <= i < |a|
      ensures a[i].start + a[i].len <= lim
    {
      assert (a + b)[i] == a[i];
    }
    forall i | 0 <= i < |b|
      ensures b[i].start + b[i].len <= lim
    {
      assert (a + b)[|a| + i] == b[i];
    }
  }

  lemma {:induction false} CheckSumsDetect(rd: Reader, rd': Reader, lim: nat, sums: Block, base: nat, k: nat, entries: nat, d: nat)
    requires k <= entries <= SUMS_PER_BLOCK && CheckSums(rd, sums, base, k, entries).Zero? && Damaged(rd, rd', lim, d)
    requires base + k <= d < base + entries && base + entries <= lim
    ensures CheckSums(rd', sums, base, k, entries) == Neg(EILSEQ)
    decreases entries - k
  {
    hide DataChecksum, SumAt;
    if base + k != d {
      CheckSumsDetect(rd, rd', lim, sums, base, k + 1, entries, d);
    }
  }

  lemma ReadLinkDetects(rd: Reader, rd': Reader, lim: nat, blocks: nat, pstart: nat, len: nat, csum: nat, done: nat, d: nat)
    requires done < len && pstart + len <= lim && csum < lim && csum != d && Damaged(rd, rd', lim, d)
    requires ReadLink(rd, blocks, pstart, len, csum, done).Ok?
    requires pstart + done <= d < pstart + done + Entries(rd, csum)
    ensures ReadLink(rd', blocks, pstart, len, csum, done) == Err(EILSEQ)
  {
    hide Sealed, CheckSums, DataChecksum;
    CheckSumsDetect(rd, rd', lim, rd(csum).value, pstart + done, 0, Entries(rd, csum), d);
  }

  ghost predicate ChainBelow(chain: seq<nat>, lim: nat) {
    forall k :: 0 <= k < |chain| ==> chain[k] < lim
  }

  lemma SinglesBelow(chain: seq<nat>, lim: nat)
    requires Small(Singles(chain), lim)
    ensures ChainBelow(chain, lim)
  {
    forall k | 0 <= k < |chain|
      ensures chain[k] < lim
    {
      assert Singles(chain)[k] == Interval(chain[k], 1);
    }
  }

  lemma {:induction false} ChainDetects(rd: Reader, rd': Reader, lim: nat, blocks: nat, pstart: nat, len: nat, csum: nat, done: nat, d: nat)
    requires done <= len && pstart + len <= lim && Damaged(rd, rd', lim, d)
    requires WalkChain(rd, blocks, pstart, len, csum, done).Ok?
    requires d !in WalkChain(rd, blocks, pstart, len, csum, done).value
    requires ChainBelow(WalkChain(rd, blocks, pstart, len, csum, done).value, lim)
    requires pstart + done <= d < pstart + len
    ensures WalkChain(rd', blocks, pstart, len, csum, done) == Err(EILSEQ)
    decreases len - done
  {
    hide ReadLink, Entries, DataChecksum;
    var link := ReadLink(rd, blocks, pstart, len, csum, done).value;
    LinkMeans(rd, blocks, pstart, len, csum, done, 0);
    assert WalkChain(rd, blocks, pstart, len, csum, done).value[0] == csum;
    if d < pstart + done + link.entries {
      ReadLinkDetects(rd, rd', lim, blocks, pstart, len, csum, done, d);
    } else {
      ReadLinkFrame(rd, rd', blocks, pstart, len, csum, done);
      var rest := WalkChain(rd, blocks, pstart, len, link.next, done + link.entries).value;
      assert forall x :: x in rest ==> x in [csum] + rest;
      ChainTail(csum, rest, lim);
      ChainDetects(rd, rd', lim, blocks, pstart, len, link.next, done + link.entries, d);
    }
  }

  lemma ChainTail(csum: nat, rest: seq<nat>, lim: nat)
    requires ChainBelow([csum] + rest, lim)
    ensures ChainBelow(rest, lim)
  {
    forall k | 0 <= k < |rest|
      ensures rest[k] < lim
    {
      assert ([csum] + rest)[k + 1] == rest[k];
    }
  }

  /** Block d is a data block of extent e. */
  predicate InExtent(node: Block, e: nat, d: nat)
    requires e < EXTENTS_MAX
  {
    ExtentStart(node, e) <= d < ExtentStart(node, e) + ExtentLen(node, e)
  }

  lemma AgreeOutside(rd: Reader, rd': Reader, lim: nat, s: seq<Interval>, d: nat)
    requires Damaged(rd, rd', lim, d) && Hits(s, d) == 0 && Small(s, lim)
    ensures AgreeOn(rd, rd', s) && NoWrap(s)
  {
    forall b: nat | Hits(s, b) >= 1
      ensures rd(b) == rd'(b)
    {
      var k := HitSomewhere(s, b);
    }
  }

  lemma ExtentDetects(rd: Reader, rd': Reader, lim: nat, blocks: nat, node: Block, e: nat, d: nat)
    requires e < EXTENTS_MAX && Damaged(rd, rd', lim, d) && InExtent(node, e, d)
    requires WalkChain(rd, blocks, ExtentStart(node, e), ExtentLen(node, e), ExtentSums(node, e), 0).Ok?
    requires Small(ExtentUse(rd, blocks, node, e), lim) && Hits(ExtentUse(rd, blocks, node, e), d) <= 1
    ensures WalkChain(rd', blocks, ExtentStart(node, e), ExtentLen(node, e), ExtentSums(node, e), 0) == Err(EILSEQ)
    ensures Hits(ExtentUse(rd, blocks, node, e), d) == 1
  {
    hide WalkChain, ExtentStart, ExtentLen, ExtentSums, Hits, Damaged;
    var pstart, len, csum := ExtentStart(node, e), ExtentLen(node, e), ExtentSums(node, e);
    var chain := WalkChain(rd, blocks, pstart, len, csum, 0).value;
    var x := Interval(pstart, len);
    assert ExtentUse(rd, blocks, node, e) == [x] + Singles(chain);
    assert ([x] + Singles(chain))[0] == x;
    HitsConcat([x], Singles(chain), d);
    OneHit(x, d);
    SmallSplit([x], Singles(chain), lim);
    SinglesBelow(chain, lim);
    if d in chain {
      var k :| 0 <= k < |chain| && chain[k] == d;
      SinglesHit(chain, k);
    }
    ChainDetects(rd, rd', lim, blocks, pstart, len, csum, 0, d);
  }

  lemma {:induction false} ScanExtentsDetect(rd: Reader, rd': Reader, lim: nat, blocks: nat, node: Block, n: nat, e: nat, d: nat)
    requires e < n <= EXTENTS_MAX && ScanExtents(rd, blocks, node, n).Ok? && Damaged(rd, rd', lim, d) && InExtent(node, e, d)
    requires Small(ScanExtents(rd, blocks, node, n).value.used, lim) && Hits(ScanExtents(rd, blocks, node, n).value.used, d) <= 1
    ensures ScanExtents(rd', blocks, node, n) == Err(EILSEQ)
    ensures Hits(ScanExtents(rd, blocks, node, n).value.used, d) == 1
    decreases n
  {
    hide WalkChain, ExtentBad, ExtentStart, ExtentLen, ExtentSums, Hits, ExtentUse, Damaged;
    ScanExtentsStep(rd, blocks, node, n);
    var before := ScanExtents(rd, blocks, node, n - 1).value.used;
    var last := ExtentUse(rd, blocks, node, n - 1);
    SmallSplit(before, last, lim);
    HitsConcat(before, last, d);
    if e == n - 1 {
      ExtentDetects(rd, rd', lim, blocks, node, e, d);
      AgreeOutside(rd, rd', lim, before, d);
      ScanExtentsFrame(rd, rd', blocks, node, n - 1);
    } else {
      ScanExtentsDetect(rd, rd', lim, blocks, node, n - 1, e, d);
    }
  }

  /** Block d is a data block of the file of inode i. */
  predicate FileData(rd: Reader, img: Image, i: nat, d: nat)
    requires i < MAX_INODES
  {
    var root := rd(ExtentRoot(InodeAt(img, i)));
    && IsFile(img, i) && root.Ok?
    && exists e :: 0 <= e < EXTENTS_MAX && e < NodeCount(root.value) && InExtent(root.value, e, d)
  }

  lemma ScanFileDetects(rd: Reader, rd': Reader, lim: nat, blocks: nat, inode: Inode, e: nat, d: nat)
    requires ScanFile(rd, blocks, inode).Ok? && Damaged(rd, rd', lim, d)
    requires Small(ScanFile(rd, blocks, inode).value.used, lim) && Hits(ScanFile(rd, blocks, inode).value.used, d) <= 1
    requires rd(ExtentRoot(inode)).Ok? && e < NodeCount(rd(ExtentRoot(inode)).value) && e < EXTENTS_MAX
    requires InExtent(rd(ExtentRoot(inode)).value, e, d)
    ensures ScanFile(rd', blocks, inode) == Err(EILSEQ)
    ensures Hits(ScanFile(rd, blocks, inode).value.used, d) == 1
  {
    hide ScanExtents, Sealed, SizeBad, Hits, InExtent, Damaged;
    ScanFileParts(rd, blocks, inode);
    var root := ExtentRoot(inode);
    var node := rd(root).value;
    var s := ScanExtents(rd, blocks, node, NodeCount(node)).value;
    HitsConcat([Interval(root, 1)], s.used, d);
    SmallSplit([Interval(root, 1)], s.used, lim);
    ScanExtentsDetect(rd, rd', lim, blocks, node, NodeCount(node), e, d);
    if root == d {
      OneHit(Interval(root, 1), d);
    }
    assert [Interval(root, 1)][0].start + 1 <= lim;
    SameElsewhere(rd, rd', lim, d, root);
  }

  lemma SameElsewhere(rd: Reader, rd': Reader, lim: nat, d: nat, b: nat)
    requires Damaged(rd, rd', lim, d) && b < lim && b != d
    ensures rd(b) == rd'(b)
  {
  }

  lemma ScanInodeDetects(rd: Reader, rd': Reader, lim: nat, img: Image, refs: set<nat>, i: nat, before: Scan, d: nat)
    requires i < MAX_INODES && ScanInode(rd, img, refs, i, before).Ok? && Damaged(rd, rd', lim, d) && FileData(rd, img, i, d)
    requires Small(InodeUse(rd, img, i), lim) && Hits(InodeUse(rd, img, i), d) <= 1
    ensures ScanInode(rd', img, refs, i, before) == Err(EILSEQ)
    ensures Hits(InodeUse(rd, img, i), d) == 1
  {
    hide ScanFile, Sealed, BitSet, IsDir, IsReg, InodeAt, RootDirBlock, Hits, InExtent, Damaged;
    ScanInodeParts(rd, img, refs, i, before);
    RegNotDir(Mode(InodeAt(img, i)));
    var root := rd(ExtentRoot(InodeAt(img, i)));
    var e :| 0 <= e < EXTENTS_MAX && e < NodeCount(root.value) && InExtent(root.value, e, d);
    ScanFileDetects(rd, rd', lim, img.blocks, InodeAt(img, i), e, d);
  }

  lemma {:induction false} ScanInodesDetect(rd: Reader, rd': Reader, lim: nat, img: Image, refs: set<nat>, n: nat, i: nat, d: nat)
    requires i < n <= MAX_INODES && ScanInodes(rd, img, refs, n).Ok? && Damaged(rd, rd', lim, d) && FileData(rd, img, i, d)
    requires Small(ScanInodes(rd, img, refs, n).value.used, lim) && Hits(ScanInodes(rd, img, refs, n).value.used, d) <= 1
    ensures ScanInodes(rd', img, refs, n) == Err(EILSEQ)
    decreases n
  {
    hide ScanInode, Hits, InodeUse, FileData, Damaged;
    ScanInodesStep(rd, img, refs, n);
    var before := ScanInodes(rd, img, refs, n - 1).value;
    var last := InodeUse(rd, img, n - 1);
    SmallSplit(before.used, last, lim);
    HitsConcat(before.used, last, d);
    if i == n - 1 {
      ScanInodeDetects(rd, rd', lim, img, refs, i, before, d);
      AgreeOutside(rd, rd', lim, before.used, d);
      ScanInodesFrame(rd, rd', img, refs, n - 1);
    } else {
      ScanInodesDetect(rd, rd', lim, img, refs, n - 1, i, d);
    }
  }

  /** The inode scan finds it. */
  lemma ScanDetects(rd: Reader, rd': Reader, img: Image, i: nat, d: nat)
    requires Loaded(img) && Validate(rd, img).Ok? && i < MAX_INODES
    requires FileData(rd, img, i, d) && Damaged(rd, rd', img.blocks, d)
    ensures Scanned(rd, img) && ScanInodes(rd', img, Refs(img), MAX_INODES) == Err(EILSEQ)
  {
    hide ScanInodes, ScanFree, ScanDir, Validate, Hits, BitSet, FileData, Damaged, Get64, Get32;
    AcceptedConserves(rd, img);
    ScanFacts(rd, img);
    var used := TheScan(rd, img).used;
    UsedOnce(used, img.blocks, d);
    TiledNoWrap(DataUse(TheScan(rd, img)), img.blocks);
    assert Small(used, img.blocks) by {
      forall k | 0 <= k < |used|
        ensures used[k].start + used[k].len <= img.blocks
      {
        assert k > 0 ==> used[k] == DataUse(TheScan(rd, img))[k - 1];
      }
    }
    ScanInodesDetect(rd, rd', img.blocks, img, Refs(img), MAX_INODES, i, d);
  }

  /** Damage that changes a data block's checksum is always found, whichever file
      holds the block and however many come before it. */
  lemma ValidateDetects(rd: Reader, rd': Reader, img: Image, i: nat, d: nat)
    requires Loaded(img) && Validate(rd, img).Ok? && i < MAX_INODES
    requires FileData(rd, img, i, d) && Damaged(rd, rd', img.blocks, d)
    ensures Validate(rd', img) == Err(EILSEQ)
  {
    hide ScanInodes, ScanFree, ScanDir, Sweep, Sort, Coverage, BitSet, FileData, Damaged, Get64, Get32, NodeNext, NodeCount;
    ScanDetects(rd, rd', img, i, d);
  }

  lemma UsedOnce(used: seq<Interval>, blocks: nat, d: nat)
    requires used != [] && used[0] == Interval(ROOT_DIR_BLOCK, 1)
    requires Hits(used[1..], d) <= if DATA_START <= d < blocks then 1 else 0
    ensures Hits(used, d) <= 1
  {
  }

  /** An accepted image in which one to four consecutive bytes of one file data
      block have changed is rejected with -EILSEQ, whatever the pool the blocks
      are read from. */
  lemma BurstInFileDetected(rd: Reader, rd': Reader, img: Image, i: nat, d: nat, at: nat, w: nat)
    requires Loaded(img) && Validate(rd, img).Ok? && i < MAX_INODES && FileData(rd, img, i, d)
    requires rd(d).Ok? && rd'(d).Ok? && forall b: nat :: b < img.blocks && b != d ==> rd(b) == rd'(b)
    requires DifferWithin(rd(d).value, rd'(d).value, at, w) && w <= 4 && rd(d).value != rd'(d).value
    ensures Validate(rd', img) == Err(EILSEQ)
  {
    hide Validate, FileData, DataChecksum;
    BurstDetected(rd(d).value, rd'(d).value, at, w);
    ValidateDetects(rd, rd', img, i, d);
  }
}
