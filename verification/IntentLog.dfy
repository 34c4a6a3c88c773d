/** The kernel's in-memory intent log (`journal.c`): a fixed array of entries and a
    count, updated in place. */
module IntentLog {
  import opened Bytes

  const CAPACITY: nat := 1024

  datatype State = Pending | Applied | Committed | Replayed

  datatype Intent = Intent(kind: nat, state: State, txn: nat, ino: nat, oldBlock: nat, newBlock: nat, size: nat)

  // --------------------------------------------------------------- operations on lists

  /** Which entries an operation looks for. */
  datatype Filter = PendingOf(txn: nat) | DoneOf(txn: nat) | AllOf(txn: nat) | Uncommitted

  predicate Picks(p: Filter, x: Intent) {
    match p
    case PendingOf(txn) => x.txn == txn && x.state == Pending
    case DoneOf(txn) => x.txn == txn && x.state == Committed
    case AllOf(txn) => x.txn == txn
    case Uncommitted => x.state != Committed
  }

  function SetIf(s: seq<Intent>, p: Filter, to: State): (r: seq<Intent>)
    ensures |r| == |s|
    ensures forall i :: 0 <= i < |s| ==> r[i] == if Picks(p, s[i]) then s[i].(state := to) else s[i]
  {
    seq(|s|, i requires 0 <= i < |s| => if Picks(p, s[i]) then s[i].(state := to) else s[i])
  }

  /** The entries that fail p, in their order. */
  function Without(s: seq<Intent>, p: Filter): seq<Intent>
    decreases |s|
  {
    if s == [] then [] else
    var rest := Without(s[..|s| - 1], p);
    if Picks(p, s[|s| - 1]) then rest else rest + [s[|s| - 1]]
  }

  function Count(s: seq<Intent>, p: Filter): nat
    decreases |s|
  {
    if s == [] then 0 else Count(s[..|s| - 1], p) + (if Picks(p, s[|s| - 1]) then 1 else 0)
  }

  lemma {:induction false} WithoutCounts(s: seq<Intent>, p: Filter)
    ensures |Without(s, p)| + Count(s, p) == |s|
    decreases |s|
  {
    if s != [] {
      WithoutCounts(s[..|s| - 1], p);
    }
  }

  /** Filtering removes exactly the entries that satisfy p. */
  lemma {:induction false} WithoutExact(s: seq<Intent>, p: Filter, x: Intent)
    ensures multiset(Without(s, p))[x] == if Picks(p, x) then 0 else multiset(s)[x]
    decreases |s|
  {
    if s != [] {
      WithoutExact(s[..|s| - 1], p, x);
      assert s == s[..|s| - 1] + [s[|s| - 1]];
    }
  }

  /** t lists some entries of s in the order s has them. */
  ghost predicate Subsequence(t: seq<Intent>, s: seq<Intent>)
    decreases |s|
  {
    if t == [] then true
    else if s == [] then false
    else if t[|t| - 1] == s[|s| - 1] && Subsequence(t[..|t| - 1], s[..|s| - 1]) then true
    else Subsequence(t, s[..|s| - 1])
  }

  /** Filtering keeps the order. */
  lemma {:induction false} WithoutOrdered(s: seq<Intent>, p: Filter)
    ensures Subsequence(Without(s, p), s)
    decreases |s|
  {
    if s != [] {
      var rest := Without(s[..|s| - 1], p);
      WithoutOrdered(s[..|s| - 1], p);
      if !Picks(p, s[|s| - 1]) {
        assert (rest + [s[|s| - 1]])[..|rest|] == rest;
      }
    }
  }

  lemma ClearStart(s: seq<Intent>, p: Filter)
    ensures Without(s[..0], p) == [] && Without(s[..0], p) + s[0..] == s && Count(s[..0], p) == 0
  {
  }

  /** One turn of the clear loop, with the first `seen` entries of s filtered. */
  lemma ClearTurn(s: seq<Intent>, p: Filter, seen: nat)
    requires seen < |s|
    ensures var done, now := Without(s[..seen], p), Without(s[..seen], p) + s[seen..];
            && now[|done|] == s[seen]
            && Without(s[..seen + 1], p) == (if Picks(p, s[seen]) then done else done + [s[seen]])
            && Without(s[..seen + 1], p) + s[seen + 1..] == (if Picks(p, s[seen]) then now[..|done|] + now[|done| + 1..] else now)
            && Count(s[..seen + 1], p) == Count(s[..seen], p) + (if Picks(p, s[seen]) then 1 else 0)
  {
    assert s[..seen + 1][..seen] == s[..seen] && s[seen..] == [s[seen]] + s[seen + 1..];
  }

  // ----------------------------------------------------------------------- the protocol

  datatype Op =
    | Create(kind: nat, ino: nat, oldBlock: nat, newBlock: nat, size: nat, txn: nat)
    | Apply(txn: nat)
    | Commit(txn: nat)
    | Replay
    | Clear(txn: nat)

  function NewIntent(op: Op): Intent
    requires op.Create?
  {
    Intent(op.kind, Pending, op.txn, op.ino, op.oldBlock, op.newBlock, op.size)
  }

  /** The log after one operation. */
  function Step(s: seq<Intent>, op: Op): seq<Intent> {
    match op
    case Create(kind, _, _, _, _, txn) =>
      if kind == 0 || txn == 0 || |s| >= CAPACITY then s else s + [NewIntent(op)]
    case Apply(txn) => SetIf(s, PendingOf(txn), Applied)
    case Commit(txn) => SetIf(s, AllOf(txn), Committed)
    case Replay => []
    case Clear(txn) => Without(s, DoneOf(txn))
  }

  function Run(s: seq<Intent>, ops: seq<Op>): seq<Intent>
    decreases |ops|
  {
    if ops == [] then s else Step(Run(s, ops[..|ops| - 1]), ops[|ops| - 1])
  }

  /** An accepted create appends one pending intent with the values given; a refused one
      changes nothing. */
  lemma CreateRecords(s: seq<Intent>, kind: nat, ino: nat, oldBlock: nat, newBlock: nat, size: nat, txn: nat)
    ensures var r := Step(s, Create(kind, ino, oldBlock, newBlock, size, txn));
            if kind == 0 || txn == 0 || |s| >= 1024 then r == s
            else
              && |r| == |s| + 1 && r[..|s|] == s
              && var x := r[|s|];
                 && x.kind == kind && x.state == Pending && x.txn == txn && x.ino == ino
                 && x.oldBlock == oldBlock && x.newBlock == newBlock && x.size == size
  {
  }

  /** Apply and commit change states only: apply those of pending intents of the
      transaction, to applied, commit those of all its intents, to committed. */
  lemma MarksExact(s: seq<Intent>, txn: nat, i: nat)
    requires i < |s|
    ensures |Step(s, Apply(txn))| == |Step(s, Commit(txn))| == |s|
    ensures Step(s, Apply(txn))[i] == if s[i].txn == txn && s[i].state == Pending then s[i].(state := Applied) else s[i]
    ensures Step(s, Commit(txn))[i] == if s[i].txn == txn then s[i].(state := Committed) else s[i]
  {
  }

  ghost function Picked(s: seq<Intent>, p: Filter, n: nat): set<int>
    requires n <= |s|
  {
    set i | 0 <= i < n && Picks(p, s[i])
  }

  lemma {:induction false} CountSize(s: seq<Intent>, p: Filter, n: nat)
    requires n <= |s|
    ensures Count(s[..n], p) == |Picked(s, p, n)|
    decreases n
  {
    hide Picks;
    if n > 0 {
      var m := n - 1;
      CountSize(s, p, m);
      assert s[..n][..m] == s[..m];
      if Picks(p, s[m]) {
        assert Picked(s, p, n) == Picked(s, p, m) + {m};
      } else {
        assert Picked(s, p, n) == Picked(s, p, m);
      }
    }
  }

  /** What apply, replay and clear count: the pending intents of the transaction, all
      that are not committed, and the committed ones of the transaction. */
  lemma CountsExact(s: seq<Intent>, txn: nat)
    ensures Count(s, PendingOf(txn)) == |set i | 0 <= i < |s| && s[i].txn == txn && s[i].state == Pending|
    ensures Count(s, Uncommitted) == |set i | 0 <= i < |s| && s[i].state != Committed|
    ensures Count(s, DoneOf(txn)) == |set i | 0 <= i < |s| && s[i].txn == txn && s[i].state == Committed|
  {
    CountSize(s, PendingOf(txn), |s|);
    CountSize(s, Uncommitted, |s|);
    CountSize(s, DoneOf(txn), |s|);
    assert s[..|s|] == s;
    assert Picked(s, PendingOf(txn), |s|) == set i | 0 <= i < |s| && s[i].txn == txn && s[i].state == Pending;
    assert Picked(s, Uncommitted, |s|) == set i | 0 <= i < |s| && s[i].state != Committed;
    assert Picked(s, DoneOf(txn), |s|) == set i | 0 <= i < |s| && s[i].txn == txn && s[i].state == Committed;
  }

  /** Capacity holds over every run. */
  lemma {:induction false} RunFits(s: seq<Intent>, ops: seq<Op>)
    requires |s| <= CAPACITY
    ensures |Run(s, ops)| <= CAPACITY
    decreases |ops|
  {
    if ops != [] {
      RunFits(s, ops[..|ops| - 1]);
      var before := Run(s, ops[..|ops| - 1]);
      if ops[|ops| - 1].Clear? {
        WithoutCounts(before, DoneOf(ops[|ops| - 1].txn));
      }
    }
  }

  /** Every entry of the transaction is committed. */
  ghost predicate Settled(s: seq<Intent>, txn: nat) {
    forall i :: 0 <= i < |s| && s[i].txn == txn ==> s[i].state == Committed
  }

  lemma {:induction false} WithoutSettled(s: seq<Intent>, p: Filter, txn: nat)
    requires Settled(s, txn)
    ensures Settled(Without(s, p), txn)
    decreases |s|
  {
    if s != [] {
      WithoutSettled(s[..|s| - 1], p, txn);
    }
  }

  /** Only a create of the transaction itself can unsettle it. */
  lemma StepSettled(s: seq<Intent>, op: Op, txn: nat)
    requires Settled(s, txn) && !(op.Create? && op.txn == txn)
    ensures Settled(Step(s, op), txn)
  {
    if op.Clear? {
      WithoutSettled(s, DoneOf(op.txn), txn);
    }
  }

  /** A committed transaction with no later creates has only committed intents in
      the log, whatever else runs. */
  lemma {:induction false} CommitSettles(s: seq<Intent>, txn: nat, ops: seq<Op>)
    requires forall k :: 0 <= k < |ops| ==> !(ops[k].Create? && ops[k].txn == txn)
    ensures Settled(Run(Step(s, Commit(txn)), ops), txn)
    decreases |ops|
  {
    if ops != [] {
      CommitSettles(s, txn, ops[..|ops| - 1]);
      StepSettled(Run(Step(s, Commit(txn)), ops[..|ops| - 1]), ops[|ops| - 1], txn);
    }
  }

  /** The condition is needed: a create after the commit that the log accepts
      leaves a pending intent. */
  lemma CreateUnsettles(s: seq<Intent>, op: Op)
    requires op.Create? && op.kind != 0 && op.txn != 0 && |s| < CAPACITY
    ensures !Settled(Step(s, op), op.txn)
  {
    assert Step(s, op)[|s|].state == Pending;
  }

  /** Commit then clear removes the whole transaction and nothing else. */
  lemma {:induction false} CommitThenClear(s: seq<Intent>, txn: nat)
    ensures Step(Step(s, Commit(txn)), Clear(txn)) == Without(s, AllOf(txn))
    decreases |s|
  {
    if s != [] {
      var front, x := s[..|s| - 1], s[|s| - 1];
      CommitThenClear(front, txn);
      var c := Step(s, Commit(txn));
      assert c[..|s| - 1] == Step(front, Commit(txn));
    }
  }

  /** Nothing stays pending after apply: a second apply finds nothing. */
  lemma {:induction false} ApplyOnce(s: seq<Intent>, txn: nat)
    ensures Count(Step(s, Apply(txn)), PendingOf(txn)) == 0
    decreases |s|
  {
    if s != [] {
      ApplyOnce(s[..|s| - 1], txn);
      var a := Step(s, Apply(txn));
      assert a[..|s| - 1] == Step(s[..|s| - 1], Apply(txn));
    }
  }

  // ---------------------------------------------------------------------------- the log

  class Log {
    const intents: array<Intent>
    var count: nat

    ghost predicate Valid()
      reads this
    {
      intents.Length == CAPACITY && count <= CAPACITY
    }

    ghost function Contents(): seq<Intent>
      reads this, intents
      requires Valid()
    {
      intents[..count]
    }

    /** `aetherfs_intent_init` */
    constructor ()
      ensures Valid() && fresh(intents) && Contents() == []
    {
      intents := new Intent[CAPACITY](_ => Intent(0, Pending, 0, 0, 0, 0, 0));
      count := 0;
    }

    /** `aetherfs_intent_create` */
    method Add(kind: nat, ino: nat, oldBlock: nat, newBlock: nat, size: nat, txn: nat) returns (rc: Rc)
      requires Valid()
      modifies this`count, intents
      ensures Valid() && Contents() == Step(old(Contents()), Create(kind, ino, oldBlock, newBlock, size, txn))
      ensures rc == if kind == 0 || txn == 0 then Neg(EINVAL) else if old(count) >= CAPACITY then Neg(ENOSPC) else Zero
    {
      if kind == 0 || txn == 0 {
        return Neg(EINVAL);
      }
      if count >= CAPACITY {
        return Neg(ENOSPC);
      }
      intents[count] := Intent(kind, Pending, txn, ino, oldBlock, newBlock, size);
      count := count + 1;
      rc := Zero;
    }

    /** `aetherfs_intent_apply` */
    method ApplyTxn(txn: nat) returns (applied: nat)
      requires Valid()
      modifies intents
      ensures Valid() && Contents() == Step(old(Contents()), Apply(txn))
      ensures applied == Count(old(Contents()), PendingOf(txn))
    {
      ghost var was, p := Contents(), PendingOf(txn);
      applied := 0;
      for i := 0 to count
        invariant applied == Count(was[..i], p)
        invariant forall k :: 0 <= k < i ==> intents[k] == if Picks(p, was[k]) then was[k].(state := Applied) else was[k]
        invariant forall k :: i <= k < count ==> intents[k] == was[k]
      {
        assert was[..i + 1][..i] == was[..i];
        if intents[i].txn == txn && intents[i].state == Pending {
          intents[i] := intents[i].(state := Applied);
          applied := applied + 1;
        }
      }
      assert was[..count] == was;
    }

    /** `aetherfs_intent_commit` */
    method CommitTxn(txn: nat)
      requires Valid()
      modifies intents
      ensures Valid() && Contents() == Step(old(Contents()), Commit(txn))
    {
      ghost var was := Contents();
      for i := 0 to count
        invariant forall k :: 0 <= k < i ==> intents[k] == if was[k].txn == txn then was[k].(state := Committed) else was[k]
        invariant forall k :: i <= k < count ==> intents[k] == was[k]
      {
        if intents[i].txn == txn {
          intents[i] := intents[i].(state := Committed);
        }
      }
    }

    /** `aetherfs_intent_replay`: everything not committed is replayed, and the log
        is empty. */
    method ReplayAll() returns (replayed: nat)
      requires Valid()
      modifies this`count, intents
      ensures Valid() && Contents() == Step(old(Contents()), Replay)
      ensures replayed == Count(old(Contents()), Uncommitted)
      ensures forall k :: 0 <= k < old(count) ==>
                            intents[k] == if old(intents[k]).state == Committed then old(intents[k]) else old(intents[k]).(state := Replayed)
    {
      ghost var was, p := Contents(), Uncommitted;
      replayed := 0;
      for i := 0 to count
        invariant count == |was| && replayed == Count(was[..i], p)
        invariant forall k :: 0 <= k < i ==> intents[k] == if Picks(p, was[k]) then was[k].(state := Replayed) else was[k]
        invariant forall k :: i <= k < count ==> intents[k] == was[k]
      {
        assert was[..i + 1][..i] == was[..i];
        if intents[i].state != Committed {
          intents[i] := intents[i].(state := Replayed);
          replayed := replayed + 1;
        }
      }
      assert was[..count] == was;
      count := 0;
    }

    /** Entry i is dropped: `memmove` of the entries after it down by one */
    method RemoveAt(i: nat)
      requires Valid() && i < count
      modifies this`count, intents
      ensures Valid() && Contents() == old(Contents())[..i] + old(Contents())[i + 1..]
    {
      for j := i to count - 1
        invariant count == old(count)
        invariant forall k :: 0 <= k < i ==> intents[k] == old(intents[k])
        invariant forall k :: i <= k < j ==> intents[k] == old(intents[k + 1])
        invariant forall k :: j <= k < count ==> intents[k] == old(intents[k])
      {
        intents[j] := intents[j + 1];
      }
      count := count - 1;
    }

    /** `aetherfs_intent_clear` */
    method ClearTxn(txn: nat) returns (removed: nat)
      requires Valid()
      modifies this`count, intents
      ensures Valid() && Contents() == Step(old(Contents()), Clear(txn))
      ensures removed == Count(old(Contents()), DoneOf(txn))
    {
      hide Without, Count;
      ghost var was, p := Contents(), DoneOf(txn);
      ghost var seen := 0;
      var i := 0;
      removed := 0;
      ClearStart(was, p);
      while i < count
        invariant Valid() && i <= count && seen + (count - i) == |was| && removed == Count(was[..seen], p)
        invariant i == |Without(was[..seen], p)| && Contents() == Without(was[..seen], p) + was[seen..]
        decreases count - i
      {
        ClearTurn(was, p, seen);
        assert intents[i] == Contents()[i];
        if intents[i].txn == txn && intents[i].state == Committed {
          RemoveAt(i);
          removed := removed + 1;
        } else {
          i := i + 1;
        }
        seen := seen + 1;
      }
      assert was[..seen] == was;
    }
  }
}
