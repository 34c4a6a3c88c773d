/** The interval lists of `aetherfs_image_validate`: sort, sweep, and what an
    accepted sweep means for the blocks of the image. */
module Intervals {
  import opened Bytes

  datatype Interval = Interval(start: nat, len: nat)

  /** `aetherfs_interval_list_append`: empty intervals are dropped. */
  function Append(s: seq<Interval>, start: nat, len: nat): seq<Interval> {
    if len == 0 then s else s + [Interval(start, len)]
  }

  /** `aetherfs_interval_compare` does not put b before a. */
  predicate Before(a: Interval, b: Interval) {
    a.start < b.start || (a.start == b.start && a.len <= b.len)
  }

  predicate Sorted(s: seq<Interval>) {
    forall i, j :: 0 <= i < j < |s| ==> Before(s[i], s[j])
  }

  function Insert(x: Interval, s: seq<Interval>): seq<Interval>
    decreases s
  {
    if s == [] || Before(x, s[0]) then [x] + s else [s[0]] + Insert(x, s[1..])
  }

  /** The list as `qsort` leaves it. `SortedPermutationUnique` shows that the
      comparison function determines it, whatever the algorithm. */
  function Sort(s: seq<Interval>): seq<Interval>
    decreases s
  {
    if s == [] then [] else Insert(s[0], Sort(s[1..]))
  }

  /** The coverage sweep: every interval starts where the cursor stands, and the
      cursor moves by 64-bit addition. */
  function Sweep(s: seq<Interval>, cursor: nat): Result<nat>
    decreases s
  {
    if s == [] then Ok(cursor)
    else if s[0].start != cursor then Err(EINVAL)
    else Sweep(s[1..], Add64(s[0].start, s[0].len))
  }

  /** The sweep and its closing comparison, as the loop runs it. */
  method SweepCoverage(items: seq<Interval>, blocks: nat) returns (rc: Rc)
    ensures rc == if Sweep(items, DATA_START) == Ok(blocks) then Zero else Neg(EINVAL)
  {
    var cursor := DATA_START;
    for index := 0 to |items|
      invariant Sweep(items, DATA_START) == Sweep(items[index..], cursor)
    {
      assert items[index..][1..] == items[index + 1..];
      if items[index].start != cursor {
        return Neg(EINVAL);
      }
      cursor := Add64(items[index].start, items[index].len);
    }
    rc := if cursor != blocks then Neg(EINVAL) else Zero;
  }

  // ------------------------------------------------------------------- blocks hit

  /** How many intervals of s hold block d, over unbounded numbers. */
  function Hits(s: seq<Interval>, d: nat): nat
    decreases s
  {
    if s == [] then 0 else Holds(s[0], d) + Hits(s[1..], d)
  }

  function Holds(x: Interval, d: nat): nat {
    if x.start <= d < x.start + x.len then 1 else 0
  }

  function Total(s: seq<Interval>): nat
    decreases s
  {
    if s == [] then 0 else s[0].len + Total(s[1..])
  }

  /** Every block of [lo, hi) lies in exactly one interval, and no other block in any. */
  ghost predicate Tiles(s: seq<Interval>, lo: nat, hi: nat) {
    forall d: nat :: Hits(s, d) == if lo <= d < hi then 1 else 0
  }

  /** What the validator has checked of an interval when it is listed. */
  predicate Bounded(x: Interval, blocks: nat) {
    0 < x.len < U64 && x.start < U64 && Add64(x.start, x.len) <= blocks
  }

  predicate AllBounded(s: seq<Interval>, blocks: nat) {
    forall i :: 0 <= i < |s| ==> Bounded(s[i], blocks)
  }

  lemma {:induction false} HitsConcat(a: seq<Interval>, b: seq<Interval>, d: nat)
    ensures Hits(a + b, d) == Hits(a, d) + Hits(b, d)
    decreases |a|
  {
    if a == [] {
      assert a + b == b;
    } else {
      assert (a + b)[1..] == a[1..] + b;
      HitsConcat(a[1..], b, d);
    }
  }

  lemma {:induction false} TotalConcat(a: seq<Interval>, b: seq<Interval>)
    ensures Total(a + b) == Total(a) + Total(b)
    decreases |a|
  {
    if a == [] {
      assert a + b == b;
    } else {
      assert (a + b)[1..] == a[1..] + b;
      TotalConcat(a[1..], b);
    }
  }

  // ------------------------------------------------------------------------- sort

  lemma {:induction false} InsertSorted(x: Interval, s: seq<Interval>)
    requires Sorted(s)
    ensures Sorted(Insert(x, s)) && multiset(Insert(x, s)) == multiset(s) + multiset{x}
    decreases |s|
  {
    if s == [] || Before(x, s[0]) {
    } else {
      var rest := Insert(x, s[1..]);
      InsertSorted(x, s[1..]);
      assert s == [s[0]] + s[1..];
      forall j | 0 <= j < |rest|
        ensures Before(s[0], rest[j])
      {
        InsertedFrom(x, s[1..], rest[j]);
      }
    }
  }

  lemma InsertedFrom(x: Interval, s: seq<Interval>, y: Interval)
    requires multiset(Insert(x, s)) == multiset(s) + multiset{x} && y in Insert(x, s)
    ensures y == x || y in s
  {
    assert y in multiset(Insert(x, s));
  }

  lemma {:induction false} SortSorts(s: seq<Interval>)
    ensures Sorted(Sort(s)) && multiset(Sort(s)) == multiset(s)
    decreases |s|
  {
    if s != [] {
      SortSorts(s[1..]);
      InsertSorted(s[0], Sort(s[1..]));
      assert s == [s[0]] + s[1..];
    }
  }

  /** Sorted lists ascend by start, and by length where the start is the same. */
  lemma SortedAscends(s: seq<Interval>, i: nat, j: nat)
    requires i < j < |s|
    ensures Sorted(Sort(s)) && |Sort(s)| == |s|
    ensures Sort(s)[i].start <= Sort(s)[j].start && (Sort(s)[i].start == Sort(s)[j].start ==> Sort(s)[i].len <= Sort(s)[j].len)
  {
    hide Sort;
    SortSorts(s);
    assert |multiset(Sort(s))| == |multiset(s)|;
  }

  /** A list has one sorted rearrangement only. */
  lemma {:induction false} SortedPermutationUnique(a: seq<Interval>, b: seq<Interval>)
    requires Sorted(a) && Sorted(b) && multiset(a) == multiset(b)
    ensures a == b
    decreases |a|
  {
    if a == [] {
      assert |multiset(b)| == 0;
    } else {
      assert a[0] in multiset(b) && b != [];
      HeadLeast(a, b[0]);
      HeadLeast(b, a[0]);
      TailPermutation(a);
      TailPermutation(b);
      SortedPermutationUnique(a[1..], b[1..]);
      assert a == [a[0]] + a[1..];
    }
  }

  lemma TailPermutation(s: seq<Interval>)
    requires s != []
    ensures multiset(s[1..]) == multiset(s) - multiset{s[0]}
  {
    assert s == [s[0]] + s[1..];
  }

  lemma HeadLeast(s: seq<Interval>, x: Interval)
    requires Sorted(s) && x in multiset(s)
    ensures Before(s[0], x)
  {
    var i :| 0 <= i < |s| && s[i] == x;
  }

  lemma {:induction false} InsertCounts(x: Interval, s: seq<Interval>, d: nat)
    ensures Hits(Insert(x, s), d) == Holds(x, d) + Hits(s, d)
    ensures Total(Insert(x, s)) == x.len + Total(s)
    decreases |s|
  {
    if s == [] || Before(x, s[0]) {
      assert ([x] + s)[1..] == s;
    } else {
      InsertCounts(x, s[1..], d);
      assert ([s[0]] + Insert(x, s[1..]))[1..] == Insert(x, s[1..]);
    }
  }

  lemma {:induction false} SortCounts(s: seq<Interval>, d: nat)
    ensures Hits(Sort(s), d) == Hits(s, d) && Total(Sort(s)) == Total(s)
    decreases |s|
  {
    if s != [] {
      SortCounts(s[1..], d);
      InsertCounts(s[0], Sort(s[1..]), d);
    }
  }

  lemma SortBounded(s: seq<Interval>, blocks: nat)
    ensures AllBounded(Sort(s), blocks) <==> AllBounded(s, blocks)
  {
    SortSorts(s);
    var t := Sort(s);
    assert forall i :: 0 <= i < |t| ==> t[i] in multiset(s);
    assert forall i :: 0 <= i < |s| ==> s[i] in multiset(t);
  }

  // ---------------------------------------------------------------------- the law

  /** An accepted sweep tiles [lo, hi): the 64-bit cursor never wrapped. */
  lemma {:induction false} SweepTiles(t: seq<Interval>, lo: nat, hi: nat)
    requires Sorted(t) && AllBounded(t, hi) && lo <= hi < U64
    requires Sweep(t, lo) == Ok(hi)
    ensures Tiles(t, lo, hi) && Total(t) == hi - lo
    decreases |t|
  {
    if t != [] {
      var end := Add64(t[0].start, t[0].len);
      assert lo + t[0].len < U64;  // a wrapped cursor lies below every later start
      SweepTiles(t[1..], end, hi);
      forall d: nat
        ensures Hits(t, d) == if lo <= d < hi then 1 else 0
      {
        assert Hits(t[1..], d) == if end <= d < hi then 1 else 0;
      }
    }
  }

  lemma {:induction false} HitCounted(t: seq<Interval>, d: nat, k: nat)
    requires k < |t| && Holds(t[k], d) == 1
    ensures Hits(t, d) >= 1
    decreases |t|
  {
    if k != 0 {
      HitCounted(t[1..], d, k - 1);
    }
  }

  lemma {:induction false} HitSomewhere(t: seq<Interval>, d: nat) returns (k: nat)
    requires Hits(t, d) >= 1
    ensures k < |t| && Holds(t[k], d) == 1
    decreases |t|
  {
    if Holds(t[0], d) == 1 {
      k := 0;
    } else {
      k := HitSomewhere(t[1..], d);
      k := k + 1;
    }
  }

  /** A sorted list that tiles [lo, hi) is swept to its end. */
  lemma {:induction false} TilesSweep(t: seq<Interval>, lo: nat, hi: nat)
    requires Sorted(t) && AllBounded(t, hi) && lo <= hi < U64
    requires Tiles(t, lo, hi)
    ensures Sweep(t, lo) == Ok(hi)
    decreases |t|
  {
    if t == [] {
      assert Hits(t, lo) == 0;
    } else {
      var x := t[0];
      HitCounted(t, x.start, 0);
      HitCounted(t, x.start + x.len - 1, 0);
      assert lo <= x.start && x.start + x.len - 1 < hi;
      assert Hits(t, lo) == 1;
      var k := HitSomewhere(t, lo);
      assert k != 0 ==> Before(x, t[k]);
      assert x.start == lo;
      forall d: nat
        ensures Hits(t[1..], d) == if lo + x.len <= d < hi then 1 else 0
      {
        assert Hits(t, d) == if lo <= d < hi then 1 else 0;
      }
      TilesSweep(t[1..], lo + x.len, hi);
    }
  }

  /** Sort and sweep accept exactly the lists that tile [8, blocks), even though
      the sweep and the bound checks add modulo 2^64. */
  lemma SortSweepExact(s: seq<Interval>, blocks: nat)
    requires DATA_START <= blocks < U64 && AllBounded(s, blocks)
    ensures Sweep(Sort(s), DATA_START) == Ok(blocks) <==> Tiles(s, DATA_START, blocks)
    ensures Tiles(s, DATA_START, blocks) ==> Total(s) == blocks - DATA_START
  {
    SortSorts(s);
    SortBounded(s, blocks);
    SortTiles(s, DATA_START, blocks);
    SortCounts(s, 0);
    if Sweep(Sort(s), DATA_START) == Ok(blocks) {
      SweepTiles(Sort(s), DATA_START, blocks);
    }
    if Tiles(s, DATA_START, blocks) {
      TilesSweep(Sort(s), DATA_START, blocks);
      SweepTiles(Sort(s), DATA_START, blocks);
    }
  }

  lemma SortTiles(s: seq<Interval>, lo: nat, hi: nat)
    ensures Tiles(Sort(s), lo, hi) <==> Tiles(s, lo, hi)
  {
    forall d: nat
      ensures Hits(Sort(s), d) == Hits(s, d)
    {
      SortCounts(s, d);
    }
    if Tiles(Sort(s), lo, hi) {
      assert forall d: nat :: Hits(s, d) == Hits(Sort(s), d);
    }
  }
}
