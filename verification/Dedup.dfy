/** The kernel's reference-counted deduplication table (`dense.c`): byte strings in
    hash buckets. */
module Dedup {
  import opened Bytes
  import opened Crc

  const BUCKETS: nat := 4096
  const MAX_SIZE: nat := 128

  type Count = n: nat | n < U32
  type Data = seq<Byte>

  type Bucket = h: nat | h < BUCKETS

  /** How strings are spread over the buckets. Nothing below depends on the choice. */
  type Hash = Data -> Bucket

  // -------------------------------------------------------------------- tables as values

  datatype Item = Item(data: Data, refs: Count)

  type Table = t: seq<seq<Item>> | |t| == BUCKETS witness seq(BUCKETS, _ => [])

  /** The first place of d in a chain, or its length. */
  function Find(items: seq<Item>, d: Data): (i: nat)
    ensures i <= |items| && (i < |items| ==> items[i].data == d)
    ensures forall k :: 0 <= k < i ==> items[k].data != d
    decreases |items|
  {
    if items == [] then 0
    else if items[0].data == d then 0
    else
      var i := Find(items[1..], d);
      assert forall k :: 0 < k <= i ==> items[k] == items[1..][k - 1];
      i + 1
  }

  datatype Change = Change(table: Table, rc: Rc)

  /** One more reference to d; `memory` says whether an entry can be allocated. */
  function Added(hash: Hash, t: Table, d: Data, memory: bool): Change {
    if |d| == 0 || |d| > MAX_SIZE then Change(t, Neg(EINVAL)) else
    var h := hash(d);
    var i := Find(t[h], d);
    if i < |t[h]| then Change(t[h := t[h][i := Item(d, (t[h][i].refs + 1) % U32)]], Zero)
    else if !memory then Change(t, Neg(ENOMEM))
    else Change(t[h := [Item(d, 1)] + t[h]], Zero)
  }

  /** One reference less; the last one removes the entry. */
  function Released(hash: Hash, t: Table, d: Data): Change {
    if |d| == 0 then Change(t, Neg(EINVAL)) else
    var h := hash(d);
    var i := Find(t[h], d);
    if i == |t[h]| then Change(t, Neg(ENOENT)) else
    var refs := (t[h][i].refs - 1) % U32;
    if refs == 0 then Change(t[h := t[h][..i] + t[h][i + 1..]], Zero)
    else Change(t[h := t[h][i := Item(d, refs)]], Zero)
  }

  // ------------------------------------------------------------- tables as multisets

  /** Every string is in its bucket and counted with its multiplicity. */
  ghost predicate Counted(hash: Hash, items: seq<Item>, h: nat, m: multiset<Data>) {
    forall i :: 0 <= i < |items| ==> hash(items[i].data) == h && items[i].refs == m[items[i].data] > 0
  }

  ghost predicate Different(items: seq<Item>) {
    forall i, j :: 0 <= i < j < |items| ==> items[i].data != items[j].data
  }

  /** Every string of the bucket is there. */
  ghost predicate Complete(hash: Hash, items: seq<Item>, h: nat, m: multiset<Data>) {
    forall d :: d in m && hash(d) == h ==> Find(items, d) < |items|
  }

  /** Chain h holds each of its strings once, each with its multiplicity. */
  ghost predicate ChainHolds(hash: Hash, items: seq<Item>, h: nat, m: multiset<Data>) {
    Counted(hash, items, h, m) && Different(items) && Complete(hash, items, h, m)
  }

  /** The table is the multiset: one entry per distinct string, in its own bucket,
      counting its references. */
  ghost predicate Represents(hash: Hash, t: Table, m: multiset<Data>) {
    forall h :: 0 <= h < BUCKETS ==> ChainHolds(hash, t[h], h, m)
  }

  lemma ChainLookup(hash: Hash, items: seq<Item>, h: nat, m: multiset<Data>, d: Data)
    requires ChainHolds(hash, items, h, m) && hash(d) == h
    ensures Find(items, d) < |items| <==> d in m
    ensures m[d] < U32
    ensures d in m ==> items[Find(items, d)].refs == m[d]
  {
  }

  /** Strings of other buckets do not matter to a chain. */
  lemma ChainOther(hash: Hash, items: seq<Item>, h: nat, m: multiset<Data>, m': multiset<Data>)
    requires ChainHolds(hash, items, h, m)
    requires forall x :: hash(x) == h ==> m'[x] == m[x]
    ensures ChainHolds(hash, items, h, m')
  {
  }

  lemma FindAt(items: seq<Item>, i: nat, d: Data)
    requires i < |items| && items[i].data == d
    ensures Find(items, d) <= i
  {
  }

  /** A chain that still lists every string is complete. */
  lemma StillComplete(hash: Hash, items: seq<Item>, items': seq<Item>, h: nat, m: multiset<Data>, m': multiset<Data>, d: Data)
    requires Complete(hash, items, h, m) && forall x :: x in m' && x != d ==> x in m
    requires forall k :: 0 <= k < |items| && items[k].data != d ==> items[k] in items'
    requires d in m' ==> Find(items', d) < |items'|
    ensures Complete(hash, items', h, m')
  {
    hide Find;
    forall x | x in m' && hash(x) == h
      ensures Find(items', x) < |items'|
    {
      if x != d {
        var k := Find(items, x);
        assert items[k] in items';
        var j :| 0 <= j < |items'| && items'[j] == items[k];
        FindAt(items', j, x);
      }
    }
  }

  lemma ChainUpdated(hash: Hash, items: seq<Item>, h: nat, m: multiset<Data>, m': multiset<Data>, i: nat, refs: Count)
    requires ChainHolds(hash, items, h, m) && i < |items| && m'[items[i].data] == refs > 0
    requires forall x :: x != items[i].data ==> m'[x] == m[x]
    ensures ChainHolds(hash, items[i := Item(items[i].data, refs)], h, m')
  {
    hide Find, Complete;
    var items' := items[i := Item(items[i].data, refs)];
    FindAt(items', i, items[i].data);
    forall k | 0 <= k < |items| && items[k].data != items[i].data
      ensures items[k] in items'
    {
      assert items'[k] == items[k];
    }
    StillComplete(hash, items, items', h, m, m', items[i].data);
  }

  lemma ChainGrown(hash: Hash, items: seq<Item>, h: nat, m: multiset<Data>, d: Data)
    requires ChainHolds(hash, items, h, m) && hash(d) == h && d !in m
    ensures ChainHolds(hash, [Item(d, 1)] + items, h, m + multiset{d})
  {
    hide Find, Complete;
    var items', m' := [Item(d, 1)] + items, m + multiset{d};
    forall i | 0 <= i < |items|
      ensures items[i] in items' && items[i].data != d
    {
      assert items'[i + 1] == items[i] && items[i].data in m;
    }
    FindAt(items', 0, d);
    StillComplete(hash, items, items', h, m, m', d);
    forall i, j | 0 <= i < j < |items'|
      ensures items'[i].data != items'[j].data
    {
      assert items'[j] == items[j - 1];
      if i > 0 {
        assert items'[i] == items[i - 1];
      }
    }
    forall i | 0 <= i < |items'|
      ensures hash(items'[i].data) == h && items'[i].refs == m'[items'[i].data] > 0
    {
      if i > 0 {
        assert items'[i] == items[i - 1];
      }
    }
  }

  lemma ChainShrunk(hash: Hash, items: seq<Item>, h: nat, m: multiset<Data>, i: nat)
    requires ChainHolds(hash, items, h, m) && i < |items| && items[i].refs == 1
    ensures ChainHolds(hash, items[..i] + items[i + 1..], h, m - multiset{items[i].data})
  {
    hide Find, Complete;
    var items', d := items[..i] + items[i + 1..], items[i].data;
    forall k | 0 <= k < |items'|
      ensures items'[k] == items[if k < i then k else k + 1] && items'[k].data != d
    {
    }
    forall k | 0 <= k < |items| && items[k].data != d
      ensures items[k] in items'
    {
      assert items'[if k < i then k else k - 1] == items[k];
    }
    StillComplete(hash, items, items', h, m, m - multiset{d}, d);
  }

  /** Adding d adds one d to the multiset, exactly when its count does not overflow. */
  lemma AddRepresents(hash: Hash, t: Table, m: multiset<Data>, d: Data)
    requires Represents(hash, t, m) && 0 < |d| <= MAX_SIZE
    ensures Added(hash, t, d, true).rc == Zero
    ensures Represents(hash, Added(hash, t, d, true).table, m + multiset{d}) <==> m[d] + 1 < U32
  {
    hide Find, ChainHolds;
    var h := hash(d);
    var t', m' := Added(hash, t, d, true).table, m + multiset{d};
    ChainLookup(hash, t[h], h, m, d);
    if m[d] + 1 < U32 {
      forall k | 0 <= k < BUCKETS
        ensures ChainHolds(hash, t'[k], k, m')
      {
        if k != h {
          ChainOther(hash, t[k], k, m, m');
        } else if d in m {
          ChainUpdated(hash, t[h], h, m, m', Find(t[h], d), m[d] + 1);
        } else {
          ChainGrown(hash, t[h], h, m, d);
        }
      }
    } else if Represents(hash, t', m') {
      assert ChainHolds(hash, t'[h], h, m');
      ChainLookup(hash, t'[h], h, m', d);
    }
  }

  /** What an add answers: empty strings and those over 128 bytes are refused, and so are
      new ones without memory; then nothing changes. */
  lemma AddAnswers(hash: Hash, t: Table, m: multiset<Data>, d: Data, memory: bool)
    requires Represents(hash, t, m)
    ensures Added(hash, t, d, memory).rc ==
            if |d| == 0 || |d| > 128 then Neg(EINVAL) else if d !in m && !memory then Neg(ENOMEM) else Zero
    ensures Added(hash, t, d, memory).rc.Neg? ==> Added(hash, t, d, memory).table == t
  {
    hide Find, ChainHolds;
    ChainLookup(hash, t[hash(d)], hash(d), m, d);
  }

  /** The chain of d after one of its references is gone. */
  lemma ChainReleased(hash: Hash, t: Table, m: multiset<Data>, d: Data)
    requires ChainHolds(hash, t[hash(d)], hash(d), m) && d in m && |d| > 0
    ensures Released(hash, t, d).rc == Zero && ChainHolds(hash, Released(hash, t, d).table[hash(d)], hash(d), m - multiset{d})
    ensures forall k :: 0 <= k < BUCKETS && k != hash(d) ==> Released(hash, t, d).table[k] == t[k]
  {
    hide Find, ChainHolds;
    var h := hash(d);
    ChainLookup(hash, t[h], h, m, d);
    if m[d] == 1 {
      ChainShrunk(hash, t[h], h, m, Find(t[h], d));
    } else {
      ChainUpdated(hash, t[h], h, m, m - multiset{d}, Find(t[h], d), m[d] - 1);
    }
  }

  /** Releasing d succeeds exactly when the multiset has one, and removes one. */
  lemma ReleaseRepresents(hash: Hash, t: Table, m: multiset<Data>, d: Data)
    requires Represents(hash, t, m)
    ensures Represents(hash, Released(hash, t, d).table, if |d| == 0 then m else m - multiset{d})
    ensures Released(hash, t, d).rc == if |d| == 0 then Neg(EINVAL) else if d in m then Zero else Neg(ENOENT)
  {
    hide Find, ChainHolds;
    if d in m && |d| > 0 {
      hide Released;
      var t', m' := Released(hash, t, d).table, m - multiset{d};
      ChainReleased(hash, t, m, d);
      forall k | 0 <= k < BUCKETS && k != hash(d)
        ensures ChainHolds(hash, t'[k], k, m')
      {
        ChainOther(hash, t[k], k, m, m');
      }
    } else {
      ChainLookup(hash, t[hash(d)], hash(d), m, d);
      assert d !in m ==> m - multiset{d} == m;
    }
  }

  // ------------------------------------------------------------------------------ runs

  datatype Op = Add(d: Data, memory: bool) | Release(d: Data)

  function EmptyTable(): Table {
    seq(BUCKETS, _ => [])
  }

  function Step(hash: Hash, t: Table, op: Op): Change {
    match op
    case Add(d, memory) => Added(hash, t, d, memory)
    case Release(d) => Released(hash, t, d)
  }

  /** What the callers hold after an operation that can succeed has done so. */
  function StepHeld(m: multiset<Data>, op: Op): multiset<Data> {
    match op
    case Add(d, memory) => if |d| == 0 || |d| > MAX_SIZE || (d !in m && !memory) then m else m + multiset{d}
    case Release(d) => if |d| == 0 then m else m - multiset{d}
  }

  function Run(hash: Hash, ops: seq<Op>): Table
    decreases |ops|
  {
    if ops == [] then EmptyTable() else Step(hash, Run(hash, ops[..|ops| - 1]), ops[|ops| - 1]).table
  }

  /** What the callers hold: successful adds minus successful releases. */
  function Held(ops: seq<Op>): multiset<Data>
    decreases |ops|
  {
    if ops == [] then multiset{} else StepHeld(Held(ops[..|ops| - 1]), ops[|ops| - 1])
  }

  /** No string is held more than 2^32 - 1 times. */
  ghost predicate Countable(m: multiset<Data>) {
    forall d :: m[d] < U32
  }

  lemma RepresentsCountable(hash: Hash, t: Table, m: multiset<Data>)
    requires Represents(hash, t, m)
    ensures Countable(m)
  {
    hide ChainHolds;
    forall d
      ensures m[d] < U32
    {
      ChainLookup(hash, t[hash(d)], hash(d), m, d);
    }
  }

  lemma StepRepresents(hash: Hash, t: Table, m: multiset<Data>, op: Op)
    requires Represents(hash, t, m) && Countable(StepHeld(m, op))
    ensures Represents(hash, Step(hash, t, op).table, StepHeld(m, op))
  {
    hide Represents, Find, Released;
    match op
    case Add(d, memory) =>
      if 0 < |d| <= MAX_SIZE {
        RepresentsAt(hash, t, m, d);
        if memory || d in m {
          assert (m + multiset{d})[d] < U32;
          AddedAnyway(hash, t, d, memory);
          AddRepresents(hash, t, m, d);
        }
      }
    case Release(d) =>
      ReleaseRepresents(hash, t, m, d);
  }

  /** Without memory only new strings are refused. */
  lemma AddedAnyway(hash: Hash, t: Table, d: Data, memory: bool)
    requires 0 < |d| <= MAX_SIZE && (memory || Find(t[hash(d)], d) < |t[hash(d)]|)
    ensures Added(hash, t, d, memory) == Added(hash, t, d, true)
  {
    hide Find;
  }

  lemma RepresentsAt(hash: Hash, t: Table, m: multiset<Data>, d: Data)
    requires Represents(hash, t, m)
    ensures Find(t[hash(d)], d) < |t[hash(d)]| <==> d in m
  {
    hide Find, ChainHolds;
    ChainLookup(hash, t[hash(d)], hash(d), m, d);
  }

  /** Over every run, the table is the multiset of strings its callers hold, at
      every step, exactly when no count ever reaches 2^32. */
  lemma {:induction false} RunRepresents(hash: Hash, ops: seq<Op>)
    ensures (forall k :: 0 <= k <= |ops| ==> Represents(hash, Run(hash, ops[..k]), Held(ops[..k]))) <==>
            (forall k :: 0 <= k <= |ops| ==> Countable(Held(ops[..k])))
    decreases |ops|
  {
    hide Represents, Countable, Run, Held;
    forall k | 0 <= k <= |ops|
      ensures Represents(hash, Run(hash, ops[..k]), Held(ops[..k])) ==> Countable(Held(ops[..k]))
    {
      if Represents(hash, Run(hash, ops[..k]), Held(ops[..k])) {
        RepresentsCountable(hash, Run(hash, ops[..k]), Held(ops[..k]));
      }
    }
    if forall k :: 0 <= k <= |ops| ==> Countable(Held(ops[..k])) {
      CountableRuns(hash, ops);
    }
  }

  lemma {:induction false} CountableRuns(hash: Hash, ops: seq<Op>)
    requires forall k :: 0 <= k <= |ops| ==> Countable(Held(ops[..k]))
    ensures forall k :: 0 <= k <= |ops| ==> Represents(hash, Run(hash, ops[..k]), Held(ops[..k]))
    decreases |ops|
  {
    hide Represents, Countable, Step, StepHeld;
    assert ops[..|ops|] == ops;
    if ops == [] {
      EmptyRepresents(hash);
    } else {
      var front := ops[..|ops| - 1];
      forall k | 0 <= k <= |front|
        ensures front[..k] == ops[..k]
      {
      }
      assert forall k :: 0 <= k <= |front| ==> Countable(Held(front[..k]));
      CountableRuns(hash, front);
      assert front[..|front|] == front;
      StepRepresents(hash, Run(hash, front), Held(front), ops[|ops| - 1]);
    }
  }

  lemma {:induction false} HeldAfterAdds(d: Data, n: nat)
    requires 0 < |d| <= MAX_SIZE
    ensures Held(seq(n, _ => Add(d, true)))[d] == n
    decreases n
  {
    var ops := seq(n, _ => Add(d, true));
    if n > 0 {
      HeldAfterAdds(d, n - 1);
      assert ops[..n - 1] == seq(n - 1, _ => Add(d, true));
    }
  }

  /** The bound is reached: after 2^32 adds of one string the table no longer matches
      its callers. */
  lemma OverflowExample(hash: Hash, d: Data)
    requires 0 < |d| <= MAX_SIZE
    ensures var ops := seq(U32, _ => Add(d, true)); Held(ops)[d] == U32 && !Represents(hash, Run(hash, ops), Held(ops))
  {
    hide Represents, Run, Held;
    var ops := seq(U32, _ => Add(d, true));
    HeldAfterAdds(d, U32);
    assert Countable(Held(ops)) ==> Held(ops)[d] < U32;
    if Represents(hash, Run(hash, ops), Held(ops)) {
      RepresentsCountable(hash, Run(hash, ops), Held(ops));
    }
  }

  lemma EmptyRepresents(hash: Hash)
    ensures Represents(hash, Run(hash, []), Held([]))
  {
  }

  // ----------------------------------------------------------------------- the kernel's hash

  /** The byte loop of the kernel's `aetherfs_crc32c`: one shift a byte, where the
      checksum of `aetherfs_format.h` has eight. */
  function KernelFold(c: nat, d: Data): nat
    decreases |d|
  {
    if d == [] then c else KernelFold(Crc.Step(Xor(c, d[0])), d[1..])
  }

  /** `dedup_hash` */
  function KernelHash(d: Data): Bucket {
    Xor(KernelFold(CRC_SEED, d), ONES) % BUCKETS
  }

  method ComputeHash(d: Data) returns (h: Bucket)
    ensures h == KernelHash(d)
  {
    var c := CRC_SEED;
    for p := 0 to |d|
      invariant KernelFold(c, d[p..]) == KernelFold(CRC_SEED, d)
    {
      c := Xor(c, d[p]);
      c := Xor(c / 2, if c % 2 == 1 then POLY else 0);
      assert d[p..][1..] == d[p + 1..];
    }
    h := Xor(c, ONES) % BUCKETS;
  }
}
