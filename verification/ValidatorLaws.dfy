/** How checksum chains cover the data of an extent, and that the validator's walk
    depends only on the blocks it lists as used. */
module ValidatorLaws {
  import opened Bytes
  import opened Crc
  import opened Layout
  import opened Intervals
  import opened Validator

  // ------------------------------------------------------------------ chains cover data

  /** The chain has at least one block for each 1020 data blocks, at most one for
      each data block, and stays in the data area. */
  lemma {:induction false} ChainBounds(rd: Reader, blocks: nat, pstart: nat, len: nat, csum: nat, done: nat)
    requires done <= len && WalkChain(rd, blocks, pstart, len, csum, done).Ok?
    ensures var chain := WalkChain(rd, blocks, pstart, len, csum, done).value;
            && |chain| <= len - done <= SUMS_PER_BLOCK * |chain|
            && (chain != [] ==> chain[0] == csum)
            && forall i :: 1 <= i < |chain| ==> DATA_START <= chain[i] < blocks
    decreases len - done
  {
    hide ReadLink;
    if done < len {
      var link := ReadLink(rd, blocks, pstart, len, csum, done).value;
      ChainBounds(rd, blocks, pstart, len, link.next, done + link.entries);
    }
  }

  function Entries(rd: Reader, c: nat): nat {
    if rd(c).Ok? then SumsEntries(rd(c).value) else 0
  }

  /** Data blocks checked by the first j chain blocks. */
  function OffsetOf(rd: Reader, chain: seq<nat>, j: nat): nat
    requires j <= |chain|
    decreases j
  {
    if j == 0 then 0 else OffsetOf(rd, chain, j - 1) + Entries(rd, chain[j - 1])
  }

  /** Entry s of chain block c is the checksum of data block b. */
  predicate CheckedBy(rd: Reader, c: nat, s: nat, b: nat) {
    && rd(c).Ok? && s < SUMS_PER_BLOCK && rd(b % U64).Ok?
    && DataChecksum(rd(b % U64).value) == SumAt(rd(c).value, s)
  }

  lemma {:induction false} OffsetShift(rd: Reader, c: nat, rest: seq<nat>, j: nat)
    requires j <= |rest|
    ensures OffsetOf(rd, [c] + rest, j + 1) == Entries(rd, c) + OffsetOf(rd, rest, j)
    decreases j
  {
    if j == 0 {
      assert OffsetOf(rd, [c] + rest, 1) == OffsetOf(rd, [c] + rest, 0) + Entries(rd, ([c] + rest)[0]);
    } else {
      OffsetShift(rd, c, rest, j - 1);
      assert ([c] + rest)[j] == rest[j - 1];
    }
  }

  lemma {:induction false} CheckSumsMeans(rd: Reader, sums: Block, base: nat, k: nat, entries: nat, s: nat)
    requires k <= s < entries <= SUMS_PER_BLOCK && CheckSums(rd, sums, base, k, entries).Zero?
    ensures rd((base + s) % U64).Ok? && DataChecksum(rd((base + s) % U64).value) == SumAt(sums, s)
    decreases entries - k
  {
    hide DataChecksum, SumAt;
    if k < s {
      CheckSumsMeans(rd, sums, base, k + 1, entries, s);
    }
  }

  lemma LinkMeans(rd: Reader, blocks: nat, pstart: nat, len: nat, csum: nat, done: nat, s: nat)
    requires done < len && ReadLink(rd, blocks, pstart, len, csum, done).Ok?
    requires s < ReadLink(rd, blocks, pstart, len, csum, done).value.entries
    ensures Entries(rd, csum) == ReadLink(rd, blocks, pstart, len, csum, done).value.entries
    ensures CheckedBy(rd, csum, s, pstart + done + s)
  {
    hide CheckSums, DataChecksum, SumAt, Sealed;
    CheckSumsMeans(rd, rd(csum).value, pstart + done, 0, Entries(rd, csum), s);
  }

  /** Entry s of the j-th chain block is in use. */
  predicate EntryUsed(rd: Reader, chain: seq<nat>, j: nat, s: nat) {
    j < |chain| && s < Entries(rd, chain[j])
  }

  lemma {:induction false} ChainLength(rd: Reader, blocks: nat, pstart: nat, len: nat, csum: nat, done: nat)
    requires done <= len && WalkChain(rd, blocks, pstart, len, csum, done).Ok?
    ensures var chain := WalkChain(rd, blocks, pstart, len, csum, done).value;
            OffsetOf(rd, chain, |chain|) == len - done
    decreases len - done
  {
    hide ReadLink, Entries;
    if done < len {
      var link := ReadLink(rd, blocks, pstart, len, csum, done).value;
      ChainLength(rd, blocks, pstart, len, link.next, done + link.entries);
      var rest := WalkChain(rd, blocks, pstart, len, link.next, done + link.entries).value;
      LinkMeans(rd, blocks, pstart, len, csum, done, 0);
      OffsetShift(rd, csum, rest, |rest|);
    }
  }

  /** On success the chain's entries, in order, are the checksums of the extent's
      data blocks, in order. */
  lemma {:induction false} ChainCovers(rd: Reader, blocks: nat, pstart: nat, len: nat, csum: nat, done: nat, j: nat, s: nat)
    requires done <= len && WalkChain(rd, blocks, pstart, len, csum, done).Ok?
    requires EntryUsed(rd, WalkChain(rd, blocks, pstart, len, csum, done).value, j, s)
    ensures var chain := WalkChain(rd, blocks, pstart, len, csum, done).value;
            CheckedBy(rd, chain[j], s, pstart + done + OffsetOf(rd, chain, j) + s)
    decreases len - done
  {
    hide ReadLink, CheckedBy, Entries;
    var link := ReadLink(rd, blocks, pstart, len, csum, done).value;
    var rest := WalkChain(rd, blocks, pstart, len, link.next, done + link.entries).value;
    LinkMeans(rd, blocks, pstart, len, csum, done, 0);
    if j == 0 {
      LinkMeans(rd, blocks, pstart, len, csum, done, s);
    } else {
      ChainCovers(rd, blocks, pstart, len, link.next, done + link.entries, j - 1, s);
      OffsetShift(rd, csum, rest, j - 1);
    }
  }

  lemma {:induction false} OffsetMonotone(rd: Reader, chain: seq<nat>, i: nat, j: nat)
    requires i < j <= |chain|
    ensures OffsetOf(rd, chain, i) + Entries(rd, chain[i]) <= OffsetOf(rd, chain, j)
    decreases j
  {
    hide Entries;
    if i + 1 < j {
      OffsetMonotone(rd, chain, i, j - 1);
    }
  }

  lemma EntryUnique(rd: Reader, chain: seq<nat>, j: nat, s: nat, j': nat, s': nat)
    requires EntryUsed(rd, chain, j, s) && EntryUsed(rd, chain, j', s')
    requires OffsetOf(rd, chain, j) + s == OffsetOf(rd, chain, j') + s'
    ensures j == j' && s == s'
  {
    hide Entries;
    if j' < j {
      OffsetMonotone(rd, chain, j', j);
    } else if j < j' {
      OffsetMonotone(rd, chain, j, j');
    }
  }

  lemma {:induction false} EntryFor(rd: Reader, chain: seq<nat>, n: nat, k: nat) returns (j: nat, s: nat)
    requires n <= |chain| && k < OffsetOf(rd, chain, n)
    ensures EntryUsed(rd, chain, j, s) && OffsetOf(rd, chain, j) + s == k
    decreases n
  {
    hide Entries;
    if k < OffsetOf(rd, chain, n - 1) {
      j, s := EntryFor(rd, chain, n - 1, k);
    } else {
      j, s := n - 1, k - OffsetOf(rd, chain, n - 1);
    }
  }

  /** An accepted chain checks every data block of the extent, each by exactly one
      entry of exactly one chain block. */
  lemma ChainChecksEachOnce(rd: Reader, blocks: nat, pstart: nat, len: nat, csum: nat, k: nat) returns (j: nat, s: nat)
    requires WalkChain(rd, blocks, pstart, len, csum, 0).Ok? && k < len
    ensures var chain := WalkChain(rd, blocks, pstart, len, csum, 0).value;
            && EntryUsed(rd, chain, j, s) && CheckedBy(rd, chain[j], s, pstart + k)
            && forall j': nat, s': nat :: EntryUsed(rd, chain, j', s') && OffsetOf(rd, chain, j') + s' == k ==> j' == j && s' == s
  {
    hide WalkChain, CheckedBy, OffsetOf;
    var chain := WalkChain(rd, blocks, pstart, len, csum, 0).value;
    ChainLength(rd, blocks, pstart, len, csum, 0);
    j, s := EntryFor(rd, chain, |chain|, k);
    ChainCovers(rd, blocks, pstart, len, csum, 0, j, s);
    forall j': nat, s': nat | EntryUsed(rd, chain, j', s') && OffsetOf(rd, chain, j') + s' == k
      ensures j' == j && s' == s
    {
      EntryUnique(rd, chain, j, s, j', s');
    }
  }

  // ----------------------------------------------------------------- chains, exactly

  /** Sum s of chain block c is right for data block base + s. */
  predicate SumRight(rd: Reader, c: nat, base: nat, s: nat) {
    CheckedBy(rd, c, s, base + s)
  }

  ghost predicate SumsRight(rd: Reader, c: nat, base: nat) {
    forall s: nat :: s < Entries(rd, c) ==> SumRight(rd, c, base, s)
  }

  /** Chain block c checks the data blocks of the extent from number `at` on: it is
      sealed and has 1 to 1020 sums, each right for its data block, and it is followed by
      `next`, or by nothing if it is the last. */
  ghost predicate LinkGood(rd: Reader, blocks: nat, pstart: nat, len: nat, at: nat, c: nat, last: bool, next: nat) {
    && rd(c).Ok? && Sealed(rd(c).value, 12) && 0 < Entries(rd, c) <= 1020
    && SumsRight(rd, c, pstart + at)
    && Get64(rd(c).value, 0) == next
    && if last then next == 0 && at + Entries(rd, c) == len else DATA_START <= next < blocks && at + Entries(rd, c) < len
  }

  /** Block j of the chain, with `done` data blocks checked before the chain. */
  ghost predicate BlockGood(rd: Reader, blocks: nat, pstart: nat, len: nat, done: nat, chain: seq<nat>, j: nat)
    requires j < |chain|
  {
    LinkGood(rd, blocks, pstart, len, done + OffsetOf(rd, chain, j), chain[j], j + 1 == |chain|, if j + 1 < |chain| then chain[j + 1] else 0)
  }

  ghost predicate BlocksGood(rd: Reader, blocks: nat, pstart: nat, len: nat, done: nat, chain: seq<nat>) {
    forall j :: 0 <= j < |chain| ==> BlockGood(rd, blocks, pstart, len, done, chain, j)
  }

  ghost predicate ChainGood(rd: Reader, blocks: nat, pstart: nat, len: nat, csum: nat, done: nat, chain: seq<nat>) {
    && (chain == [] <==> done == len) && (chain != [] ==> chain[0] == csum)
    && BlocksGood(rd, blocks, pstart, len, done, chain)
  }

  predicate EntryRight(rd: Reader, sums: Block, base: nat, s: nat)
    requires s < SUMS_PER_BLOCK
  {
    rd((base + s) % U64).Ok? && DataChecksum(rd((base + s) % U64).value) == SumAt(sums, s)
  }

  /** Of a readable metadata block, a wrong checksum is -EILSEQ and then too many entries
      are -EINVAL. */
  lemma MetadataErrors(rd: Reader, at: nat)
    requires rd(at).Ok?
    ensures ReadExtentNode(rd, at) ==
            if !Sealed(rd(at).value, 12) then Err(EILSEQ) else if Get32(rd(at).value, 8) > 102 then Err(EINVAL) else rd(at)
    ensures ReadChecksumBlock(rd, at) ==
            if !Sealed(rd(at).value, 12) then Err(EILSEQ) else if Get32(rd(at).value, 8) > 1020 then Err(EINVAL) else rd(at)
  {
  }

  lemma {:induction false} CheckSumsExact(rd: Reader, sums: Block, base: nat, k: nat, entries: nat)
    requires k <= entries <= SUMS_PER_BLOCK
    ensures CheckSums(rd, sums, base, k, entries).Zero? <==> forall s: nat :: k <= s < entries ==> EntryRight(rd, sums, base, s)
    decreases entries - k
  {
    hide DataChecksum, SumAt;
    if k < entries {
      CheckSumsExact(rd, sums, base, k + 1, entries);
      assert CheckSums(rd, sums, base, k, entries).Zero? <==> EntryRight(rd, sums, base, k) && CheckSums(rd, sums, base, k + 1, entries).Zero?;
    }
  }

  /** One turn of the walk, exactly. */
  lemma LinkExact(rd: Reader, blocks: nat, pstart: nat, len: nat, csum: nat, done: nat, n: nat, next: nat)
    requires done < len
    ensures ReadLink(rd, blocks, pstart, len, csum, done) == Ok(Link(n, next)) <==>
            n == Entries(rd, csum) && LinkGood(rd, blocks, pstart, len, done, csum, done + n == len, next)
  {
    hide Sealed, CheckSums, DataChecksum, SumAt, Get;
    if rd(csum).Ok? && SumsEntries(rd(csum).value) <= SUMS_PER_BLOCK {
      var sums, m, base := rd(csum).value, SumsEntries(rd(csum).value), pstart + done;
      CheckSumsExact(rd, sums, base, 0, m);
      forall s: nat | s < m
        ensures EntryRight(rd, sums, base, s) <==> SumRight(rd, csum, base, s)
      {
      }
    }
  }

  lemma BlockShift(rd: Reader, blocks: nat, pstart: nat, len: nat, csum: nat, done: nat, rest: seq<nat>, j: nat)
    requires j < |rest|
    ensures BlockGood(rd, blocks, pstart, len, done, [csum] + rest, j + 1) <==> BlockGood(rd, blocks, pstart, len, done + Entries(rd, csum), rest, j)
  {
    hide LinkGood, Entries, OffsetOf;
    OffsetShift(rd, csum, rest, j);
    var chain := [csum] + rest;
    assert chain[j + 1] == rest[j] && (j + 1 < |rest| ==> chain[j + 2] == rest[j + 1]);
  }

  lemma GoodTail(rd: Reader, blocks: nat, pstart: nat, len: nat, csum: nat, done: nat, rest: seq<nat>)
    requires done < len
    ensures ChainGood(rd, blocks, pstart, len, csum, done, [csum] + rest) <==>
            && BlockGood(rd, blocks, pstart, len, done, [csum] + rest, 0)
            && BlocksGood(rd, blocks, pstart, len, done + Entries(rd, csum), rest)
  {
    hide BlockGood, Entries;
    var chain, done' := [csum] + rest, done + Entries(rd, csum);
    if ChainGood(rd, blocks, pstart, len, csum, done, chain) {
      forall j | 0 <= j < |rest|
        ensures BlockGood(rd, blocks, pstart, len, done', rest, j)
      {
        BlockShift(rd, blocks, pstart, len, csum, done, rest, j);
        assert BlockGood(rd, blocks, pstart, len, done, chain, j + 1);
      }
    }
    if BlockGood(rd, blocks, pstart, len, done, chain, 0) && BlocksGood(rd, blocks, pstart, len, done', rest) {
      forall j | 0 <= j < |chain|
        ensures BlockGood(rd, blocks, pstart, len, done, chain, j)
      {
        if j > 0 {
          BlockShift(rd, blocks, pstart, len, csum, done, rest, j - 1);
        }
      }
    }
  }

  /** The first block of a chain. */
  lemma FirstBlock(rd: Reader, blocks: nat, pstart: nat, len: nat, csum: nat, done: nat, rest: seq<nat>)
    ensures BlockGood(rd, blocks, pstart, len, done, [csum] + rest, 0) <==>
            LinkGood(rd, blocks, pstart, len, done, csum, rest == [], if rest == [] then 0 else rest[0])
  {
    hide LinkGood;
    var chain := [csum] + rest;
    assert OffsetOf(rd, chain, 0) == 0 && chain[0] == csum && (rest != [] ==> chain[1] == rest[0]);
  }

  /** The walk accepts exactly the good chains: sealed blocks linked from csum on, whose
      sums in order are those of the data blocks. */
  lemma {:induction false} ChainExact(rd: Reader, blocks: nat, pstart: nat, len: nat, csum: nat, done: nat, chain: seq<nat>)
    requires done <= len
    ensures WalkChain(rd, blocks, pstart, len, csum, done) == Ok(chain) <==> ChainGood(rd, blocks, pstart, len, csum, done, chain)
    decreases len - done
  {
    hide ReadLink, BlockGood, Entries;
    if done < len && chain != [] && chain[0] == csum {
      var rest, link := chain[1..], ReadLink(rd, blocks, pstart, len, csum, done);
      assert chain == [csum] + rest;
      GoodTail(rd, blocks, pstart, len, csum, done, rest);
      FirstBlock(rd, blocks, pstart, len, csum, done, rest);
      var n, next := Entries(rd, csum), if rest == [] then 0 else rest[0];
      LinkExact(rd, blocks, pstart, len, csum, done, n, next);
      if link.Ok? {
        LinkExact(rd, blocks, pstart, len, csum, done, link.value.entries, link.value.next);
        ChainExact(rd, blocks, pstart, len, link.value.next, done + link.value.entries, rest);
      }
    }
  }

  // -------------------------------------------------- the validator reads only what is used

  ghost predicate NoWrap(s: seq<Interval>) {
    forall i :: 0 <= i < |s| ==> s[i].start + s[i].len <= U64
  }

  /** The two readers agree on every block some interval holds. */
  ghost predicate AgreeOn(rd: Reader, rd': Reader, s: seq<Interval>) {
    forall b: nat :: Hits(s, b) >= 1 ==> rd(b) == rd'(b)
  }

  lemma AgreeSplit(rd: Reader, rd': Reader, a: seq<Interval>, b: seq<Interval>)
    requires AgreeOn(rd, rd', a + b)
    ensures AgreeOn(rd, rd', a) && AgreeOn(rd, rd', b)
  {
    forall d: nat
      ensures Hits(a + b, d) == Hits(a, d) + Hits(b, d)
    {
      HitsConcat(a, b, d);
    }
  }

  lemma NoWrapSplit(a: seq<Interval>, b: seq<Interval>)
    requires NoWrap(a + b)
    ensures NoWrap(a) && NoWrap(b)
  {
    forall i | 0 <= i < |a|
      ensures a[i].start + a[i].len <= U64
    {
      assert (a + b)[i] == a[i];
    }
    forall i | 0 <= i < |b|
      ensures b[i].start + b[i].len <= U64
    {
      assert (a + b)[|a| + i] == b[i];
    }
  }

  lemma SinglesHit(chain: seq<nat>, i: nat)
    requires i < |chain|
    ensures Hits(Singles(chain), chain[i]) >= 1
  {
    HitCounted(Singles(chain), chain[i], i);
  }

  lemma OneHit(x: Interval, d: nat)
    requires x.start <= d < x.start + x.len
    ensures Hits([x], d) == 1
  {
    HitCounted([x], d, 0);
    assert [x][1..] == [];
  }

  lemma {:induction false} CheckSumsFrame(rd: Reader, rd': Reader, sums: Block, base: nat, k: nat, entries: nat)
    requires k <= entries <= SUMS_PER_BLOCK
    requires forall i :: k <= i < entries ==> rd(Add64(base, i)) == rd'(Add64(base, i))
    ensures CheckSums(rd, sums, base, k, entries) == CheckSums(rd', sums, base, k, entries)
    decreases entries - k
  {
    hide DataChecksum, SumAt;
    if k < entries {
      CheckSumsFrame(rd, rd', sums, base, k + 1, entries);
    }
  }

  lemma ReadLinkFrame(rd: Reader, rd': Reader, blocks: nat, pstart: nat, len: nat, csum: nat, done: nat)
    requires done < len && pstart + len <= U64 && rd(csum) == rd'(csum)
    requires forall b: nat :: pstart + done <= b < pstart + len && b < pstart + done + Entries(rd, csum) ==> rd(b) == rd'(b)
    ensures ReadLink(rd, blocks, pstart, len, csum, done) == ReadLink(rd', blocks, pstart, len, csum, done)
  {
    hide Sealed, CheckSums;
    if rd(csum).Ok? {
      var entries := SumsEntries(rd(csum).value);
      if entries <= SUMS_PER_BLOCK && entries <= len - done {
        CheckSumsFrame(rd, rd', rd(csum).value, pstart + done, 0, entries);
      }
    }
  }

  lemma {:induction false} ChainFrame(rd: Reader, rd': Reader, blocks: nat, pstart: nat, len: nat, csum: nat, done: nat)
    requires done <= len && pstart + len <= U64 && WalkChain(rd, blocks, pstart, len, csum, done).Ok?
    requires forall b: nat :: pstart + done <= b < pstart + len ==> rd(b) == rd'(b)
    requires var chain := WalkChain(rd, blocks, pstart, len, csum, done).value;
             forall i :: 0 <= i < |chain| ==> rd(chain[i]) == rd'(chain[i])
    ensures WalkChain(rd', blocks, pstart, len, csum, done) == WalkChain(rd, blocks, pstart, len, csum, done)
    decreases len - done
  {
    hide ReadLink;
    if done < len {
      var link := ReadLink(rd, blocks, pstart, len, csum, done).value;
      var rest := WalkChain(rd, blocks, pstart, len, link.next, done + link.entries).value;
      var chain := WalkChain(rd, blocks, pstart, len, csum, done).value;
      assert chain == [csum] + rest;
      assert chain[0] == csum;
      ReadLinkFrame(rd, rd', blocks, pstart, len, csum, done);
      forall i | 0 <= i < |rest|
        ensures rd(rest[i]) == rd'(rest[i])
      {
        assert chain[i + 1] == rest[i];
      }
      ChainFrame(rd, rd', blocks, pstart, len, link.next, done + link.entries);
    }
  }

  /** What extent i adds to a scan. */
  ghost function ExtentUse(rd: Reader, blocks: nat, node: Block, i: nat): seq<Interval>
    requires i < EXTENTS_MAX
  {
    var chain := WalkChain(rd, blocks, ExtentStart(node, i), ExtentLen(node, i), ExtentSums(node, i), 0);
    [Interval(ExtentStart(node, i), ExtentLen(node, i))] + (if chain.Ok? then Singles(chain.value) else [])
  }

  lemma ScanExtentsStep(rd: Reader, blocks: nat, node: Block, n: nat)
    requires 0 < n <= EXTENTS_MAX && ScanExtents(rd, blocks, node, n).Ok?
    ensures ScanExtents(rd, blocks, node, n - 1).Ok?
    ensures var before := ScanExtents(rd, blocks, node, n - 1).value;
            && !ExtentBad(blocks, node, n - 1, before.blocks)
            && WalkChain(rd, blocks, ExtentStart(node, n - 1), ExtentLen(node, n - 1), ExtentSums(node, n - 1), 0).Ok?
            && ScanExtents(rd, blocks, node, n).value.used == before.used + ExtentUse(rd, blocks, node, n - 1)
            && ScanExtents(rd, blocks, node, n).value.blocks == Add64(before.blocks, ExtentLen(node, n - 1))
  {
    hide WalkChain, ExtentBad, ExtentStart, ExtentLen, ExtentSums;
    var before := ScanExtents(rd, blocks, node, n - 1).value;
    var x := Interval(ExtentStart(node, n - 1), ExtentLen(node, n - 1));
    var chain := WalkChain(rd, blocks, ExtentStart(node, n - 1), ExtentLen(node, n - 1), ExtentSums(node, n - 1), 0).value;
    assert before.used + [x] + Singles(chain) == before.used + ([x] + Singles(chain));
  }

  lemma ExtentUseFrame(rd: Reader, rd': Reader, blocks: nat, node: Block, i: nat)
    requires i < EXTENTS_MAX
    requires WalkChain(rd, blocks, ExtentStart(node, i), ExtentLen(node, i), ExtentSums(node, i), 0).Ok?
    requires NoWrap(ExtentUse(rd, blocks, node, i)) && AgreeOn(rd, rd', ExtentUse(rd, blocks, node, i))
    ensures WalkChain(rd', blocks, ExtentStart(node, i), ExtentLen(node, i), ExtentSums(node, i), 0) ==
            WalkChain(rd, blocks, ExtentStart(node, i), ExtentLen(node, i), ExtentSums(node, i), 0)
  {
    hide WalkChain, ExtentStart, ExtentLen, ExtentSums, Hits;
    var pstart, len, csum := ExtentStart(node, i), ExtentLen(node, i), ExtentSums(node, i);
    var chain := WalkChain(rd, blocks, pstart, len, csum, 0).value;
    var x := Interval(pstart, len);
    assert ExtentUse(rd, blocks, node, i) == [x] + Singles(chain);
    AgreeSplit(rd, rd', [x], Singles(chain));
    assert ([x] + Singles(chain))[0] == x;
    forall b: nat | pstart <= b < pstart + len
      ensures rd(b) == rd'(b)
    {
      OneHit(x, b);
    }
    forall k | 0 <= k < |chain|
      ensures rd(chain[k]) == rd'(chain[k])
    {
      SinglesHit(chain, k);
    }
    ChainFrame(rd, rd', blocks, pstart, len, csum, 0);
  }

  lemma {:induction false} ScanExtentsFrame(rd: Reader, rd': Reader, blocks: nat, node: Block, n: nat)
    requires n <= EXTENTS_MAX && ScanExtents(rd, blocks, node, n).Ok?
    requires NoWrap(ScanExtents(rd, blocks, node, n).value.used)
    requires AgreeOn(rd, rd', ScanExtents(rd, blocks, node, n).value.used)
    ensures ScanExtents(rd', blocks, node, n) == ScanExtents(rd, blocks, node, n)
    decreases n
  {
    hide WalkChain, ExtentBad, ExtentStart, ExtentLen, ExtentSums, Hits;
    if n != 0 {
      ScanExtentsStep(rd, blocks, node, n);
      var before := ScanExtents(rd, blocks, node, n - 1).value.used;
      NoWrapSplit(before, ExtentUse(rd, blocks, node, n - 1));
      AgreeSplit(rd, rd', before, ExtentUse(rd, blocks, node, n - 1));
      ScanExtentsFrame(rd, rd', blocks, node, n - 1);
      ExtentUseFrame(rd, rd', blocks, node, n - 1);
    }
  }

  /** The parts of an accepted file. */
  lemma ScanFileParts(rd: Reader, blocks: nat, inode: Inode)
    requires ScanFile(rd, blocks, inode).Ok?
    ensures var root := ExtentRoot(inode);
            && DATA_START <= root < blocks
            && rd(root).Ok? && ReadExtentNode(rd, root) == rd(root)
            && NodeNext(rd(root).value) == 0 && NodeCount(rd(root).value) <= EXTENTS_MAX
            && var s := ScanExtents(rd, blocks, rd(root).value, NodeCount(rd(root).value));
               && s.Ok? && s.value.blocks == Blocks(inode) && !SizeBad(s.value.blocks, Size(inode))
               && ScanFile(rd, blocks, inode).value == FileScan([Interval(root, 1)] + s.value.used, s.value.blocks)
  {
    hide ScanExtents, Sealed, SizeBad;
  }

  lemma ScanFileFrame(rd: Reader, rd': Reader, blocks: nat, inode: Inode)
    requires ScanFile(rd, blocks, inode).Ok?
    requires NoWrap(ScanFile(rd, blocks, inode).value.used) && AgreeOn(rd, rd', ScanFile(rd, blocks, inode).value.used)
    ensures ScanFile(rd', blocks, inode) == ScanFile(rd, blocks, inode)
  {
    hide ScanExtents, Sealed, SizeBad, Hits;
    ScanFileParts(rd, blocks, inode);
    var root := ExtentRoot(inode);
    var node := rd(root).value;
    var s := ScanExtents(rd, blocks, node, NodeCount(node)).value;
    AgreeSplit(rd, rd', [Interval(root, 1)], s.used);
    NoWrapSplit([Interval(root, 1)], s.used);
    OneHit(Interval(root, 1), root);
    assert rd(root) == rd'(root);
    ScanExtentsFrame(rd, rd', blocks, node, NodeCount(node));
  }

  /** What inode i adds to an accepted scan. */
  ghost function InodeUse(rd: Reader, img: Image, i: nat): seq<Interval>
    requires i < MAX_INODES
  {
    if IsFile(img, i) && ScanFile(rd, img.blocks, InodeAt(img, i)).Ok?
    then ScanFile(rd, img.blocks, InodeAt(img, i)).value.used else []
  }

  /** Inode i is an allocated regular file. */
  predicate IsFile(img: Image, i: nat)
    requires i < MAX_INODES
  {
    BitSet(img.bitmap, i) && IsReg(Mode(InodeAt(img, i)))
  }

  lemma RegNotDir(mode: nat)
    ensures IsReg(mode) ==> !IsDir(mode) && mode != 0
  {
  }

  lemma ScanInodeParts(rd: Reader, img: Image, refs: set<nat>, i: nat, before: Scan)
    requires i < MAX_INODES && ScanInode(rd, img, refs, i, before).Ok?
    ensures ScanInode(rd, img, refs, i, before).value.used == before.used + InodeUse(rd, img, i)
    ensures IsFile(img, i) ==>
              && ScanFile(rd, img.blocks, InodeAt(img, i)).Ok? && i in refs && Sealed(InodeAt(img, i), I_CHECKSUM)
              && ScanInode(rd, img, refs, i, before).value ==
                 Scan(before.used + InodeUse(rd, img, i), before.files + 1, before.directories,
                      Add64(before.dataBlocks, ScanFile(rd, img.blocks, InodeAt(img, i)).value.blocks))
  {
    hide ScanFile, Sealed, BitSet, IsReg, IsDir, InodeAt, RootDirBlock;
    RegNotDir(Mode(InodeAt(img, i)));
    assert before.used + [] == before.used;
  }

  lemma ScanInodesStep(rd: Reader, img: Image, refs: set<nat>, n: nat)
    requires 0 < n <= MAX_INODES && ScanInodes(rd, img, refs, n).Ok?
    ensures ScanInodes(rd, img, refs, n - 1).Ok?
    ensures var before := ScanInodes(rd, img, refs, n - 1).value;
            && ScanInodes(rd, img, refs, n) == ScanInode(rd, img, refs, n - 1, before)
            && ScanInodes(rd, img, refs, n).value.used == before.used + InodeUse(rd, img, n - 1)
  {
    hide ScanInode, InodeUse;
    ScanInodeParts(rd, img, refs, n - 1, ScanInodes(rd, img, refs, n - 1).value);
  }

  lemma ScanInodeFrame(rd: Reader, rd': Reader, img: Image, refs: set<nat>, i: nat, before: Scan)
    requires i < MAX_INODES && ScanInode(rd, img, refs, i, before).Ok?
    requires NoWrap(InodeUse(rd, img, i)) && AgreeOn(rd, rd', InodeUse(rd, img, i))
    ensures ScanInode(rd', img, refs, i, before) == ScanInode(rd, img, refs, i, before)
  {
    hide ScanFile, Sealed, BitSet, IsDir, InodeAt, RootDirBlock;
    ScanInodeParts(rd, img, refs, i, before);
    if IsFile(img, i) {
      ScanFileFrame(rd, rd', img.blocks, InodeAt(img, i));
    }
  }

  /** The inode scan reads only blocks it lists as used. */
  lemma {:induction false} ScanInodesFrame(rd: Reader, rd': Reader, img: Image, refs: set<nat>, n: nat)
    requires n <= MAX_INODES && ScanInodes(rd, img, refs, n).Ok?
    requires NoWrap(ScanInodes(rd, img, refs, n).value.used) && AgreeOn(rd, rd', ScanInodes(rd, img, refs, n).value.used)
    ensures ScanInodes(rd', img, refs, n) == ScanInodes(rd, img, refs, n)
    decreases n
  {
    hide ScanInode, Hits, InodeUse;
    if n != 0 {
      ScanInodesStep(rd, img, refs, n);
      var before := ScanInodes(rd, img, refs, n - 1).value;
      NoWrapSplit(before.used, InodeUse(rd, img, n - 1));
      AgreeSplit(rd, rd', before.used, InodeUse(rd, img, n - 1));
      ScanInodesFrame(rd, rd', img, refs, n - 1);
      ScanInodeFrame(rd, rd', img, refs, n - 1, before);
    }
  }
}
