/** A pool is one flat array of blocks: whatever its profile, over every run of
    writes, each logical block reads as last written. */
module PoolRefinement {
  import opened Bytes
  import opened Masks
  import opened PoolMap
  import opened PoolBlocks

  /** Logical block b is kept somewhere. */
  predicate HasPlace(p: Pool, b: nat)
    requires Opened(p)
  {
    b < DATA_START || MapData(p, b).Ok?
  }

  /** The member block that keeps it. */
  function MemberBlock(p: Pool, b: nat): nat
    requires Opened(p) && HasPlace(p, b)
  {
    if b < DATA_START then b else MapData(p, b).value.block
  }

  /** A write of b goes to member m. */
  predicate WritesTo(p: Pool, b: nat, m: nat)
    requires Opened(p) && HasPlace(p, b)
  {
    if b < DATA_START then m in BootstrapMembers(p, b)
    else if p.profile == PROFILE_MIRROR then m in DataMembers(p)
    else m == MapData(p, b).value.member || (p.profile == PROFILE_PARITY && m == MapData(p, b).value.parity)
  }

  /** A read of b may use member m. */
  predicate ReadsFrom(p: Pool, b: nat, m: nat)
    requires Opened(p) && HasPlace(p, b)
  {
    if b < DATA_START then m in BootstrapMembers(p, b) else m == MapData(p, b).value.member
  }

  /** A write of logical block b may change cell c of member m. */
  predicate Touches(p: Pool, b: nat, m: nat, c: nat)
    requires Opened(p)
  {
    HasPlace(p, b) && CellOf(MemberBlock(p, b)) == Ok(c) && WritesTo(p, b, m)
  }

  /** A read of logical block b depends on cell c of member m. */
  predicate DependsOn(p: Pool, b: nat, m: nat, c: nat)
    requires Opened(p)
  {
    HasPlace(p, b) && CellOf(MemberBlock(p, b)) == Ok(c) && ReadsFrom(p, b, m)
  }

  predicate SameAt(d: Disks, d': Disks, m: nat, c: nat) {
    && m < |d| == |d'| && |d[m]| == |d'[m]|
    && (c < |d[m]| ==> d[m][c] == d'[m][c])
  }

  /** At least one of the cells a read of b may use can be read. */
  ghost predicate Reachable(p: Pool, bad: set<(nat, nat)>, b: nat)
    requires Opened(p)
  {
    exists m: nat, c: nat :: DependsOn(p, b, m, c) && (m, c) !in bad
  }

  // --------------------------------------------------------- what a write leaves alone

  lemma MemberWriteFrame(p: Pool, d: Disks, torn: map<(nat, nat), Block>, m: nat, mb: nat, buf: Block, m': nat, c': nat)
    requires Attached(p, d) && m' < |d| && !(m' == m && CellOf(mb) == Ok(c'))
    ensures SameAt(d, MemberWrite(p, d, torn, m, mb, buf).disks, m', c')
  {
  }

  lemma {:induction false} WriteReplicasFrame(p: Pool, d: Disks, torn: map<(nat, nat), Block>, ms: seq<nat>, k: nat, mb: nat, buf: Block,
                                              m': nat, c': nat)
    requires Attached(p, d) && k <= |ms| && m' < |d|
    requires !(m' in ms[k..] && CellOf(mb) == Ok(c'))
    ensures SameAt(d, WriteReplicas(p, d, torn, ms, k, mb, buf).disks, m', c')
    decreases |ms| - k
  {
    if k < |ms| {
      assert ms[k] in ms[k..] && forall x :: x in ms[k + 1..] ==> x in ms[k..];
      MemberWriteFrame(p, d, torn, ms[k], mb, buf, m', c');
      var w := MemberWrite(p, d, torn, ms[k], mb, buf);
      if w.rc.Zero? {
        WriteReplicasFrame(p, w.disks, torn, ms, k + 1, mb, buf, m', c');
      }
    }
  }

  /** A write, completed, failed or torn, changes only cells of its own block. */
  lemma WriteFrame(p: Pool, d: Disks, writable: bool, io: Faults, b: nat, buf: Block, m': nat, c': nat)
    requires Attached(p, d) && m' < |d| && !Touches(p, b, m', c')
    ensures SameAt(d, WriteBlock(p, d, writable, io, b, buf).disks, m', c')
  {
    if !writable {
    } else if b < DATA_START {
      var ms := BootstrapMembers(p, b);
      assert ms[0..] == ms;
      WriteReplicasFrame(p, d, io.torn, ms, 0, b, buf, m', c');
    } else if MapData(p, b).Ok? {
      var m := MapData(p, b).value;
      if p.profile == PROFILE_MIRROR {
        assert DataMembers(p)[0..] == DataMembers(p);
        WriteReplicasFrame(p, d, io.torn, DataMembers(p), 0, m.block, buf, m', c');
      } else if p.profile == PROFILE_PARITY {
        WriteParityFrame(p, d, io, m, buf, m', c');
      } else {
        MemberWriteFrame(p, d, io.torn, m.member, m.block, buf, m', c');
      }
    }
  }

  lemma WriteParityFrame(p: Pool, d: Disks, io: Faults, m: Mapping, buf: Block, m': nat, c': nat)
    requires Attached(p, d) && m' < |d| && !((m' == m.member || m' == m.parity) && CellOf(m.block) == Ok(c'))
    ensures SameAt(d, WriteParity(p, d, io, m, buf).disks, m', c')
  {
    var oldData := MemberRead(p, d, io.bad, m.member, m.block);
    var oldParity := MemberRead(p, d, io.bad, m.parity, m.block);
    if oldData.Ok? && oldParity.Ok? {
      var newParity := XorBlock(XorBlock(oldParity.value, oldData.value), buf);
      MemberWriteFrame(p, d, io.torn, m.parity, m.block, newParity, m', c');
      var w := MemberWrite(p, d, io.torn, m.parity, m.block, newParity);
      MemberWriteFrame(p, w.disks, io.torn, m.member, m.block, buf, m', c');
    }
  }

  // -------------------------------------------------------------- what a read depends on

  lemma {:induction false} ReadFirstFrame(p: Pool, d: Disks, d': Disks, bad: set<(nat, nat)>, ms: seq<nat>, k: nat, b: nat)
    requires Attached(p, d) && Attached(p, d') && k <= |ms|
    requires forall m: nat, c: nat :: m in ms && m < |d| && CellOf(b) == Ok(c) ==> SameAt(d, d', m, c)
    ensures ReadFirst(p, d, bad, ms, k, b) == ReadFirst(p, d', bad, ms, k, b)
    decreases |ms| - k
  {
    if k < |ms| {
      assert ms[k] in ms;
      ReadFirstFrame(p, d, d', bad, ms, k + 1, b);
    }
  }

  lemma ReadFrame(p: Pool, d: Disks, d': Disks, bad: set<(nat, nat)>, b: nat)
    requires Attached(p, d) && Attached(p, d')
    requires forall m: nat, c: nat :: DependsOn(p, b, m, c) && m < |d| ==> SameAt(d, d', m, c)
    ensures ReadBlock(p, d, bad, b) == ReadBlock(p, d', bad, b)
  {
    if b < DATA_START {
      forall m: nat, c: nat | m in BootstrapMembers(p, b) && m < |d| && CellOf(b) == Ok(c)
        ensures SameAt(d, d', m, c)
      {
        assert DependsOn(p, b, m, c);
      }
      ReadFirstFrame(p, d, d', bad, BootstrapMembers(p, b), 0, b);
    } else if MapData(p, b).Ok? {
      var m := MapData(p, b).value;
      if CellOf(m.block).Ok? {
        assert DependsOn(p, b, m.member, CellOf(m.block).value);
      }
    }
  }

  // --------------------------------------------------------------- blocks are kept apart

  /** Byte offsets are 64-bit products, so member blocks 2^52 apart are one cell: a
      write of b reaches a cell that a read of b' uses. */
  ghost predicate Aliased(p: Pool, b: nat, b': nat)
    requires Opened(p)
  {
    && HasPlace(p, b) && HasPlace(p, b')
    && MemberBlock(p, b) % ADDRESSABLE == MemberBlock(p, b') % ADDRESSABLE < ADDRESSABLE / 2
    && exists m: nat :: WritesTo(p, b, m) && ReadsFrom(p, b', m)
  }

  /** In every profile, and for bootstrap and data blocks alike, a write and a read
      share a cell exactly when they share a member and their member blocks agree
      modulo 2^52. */
  lemma AliasExact(p: Pool, b: nat, b': nat)
    requires Opened(p)
    ensures Aliased(p, b, b') <==> exists m: nat, c: nat :: Touches(p, b, m, c) && DependsOn(p, b', m, c)
  {
    hide MapData, BootstrapMembers, DataMembers, CellOf;
    if HasPlace(p, b) && HasPlace(p, b') {
      CellOfExact(MemberBlock(p, b));
      CellOfExact(MemberBlock(p, b'));
      if Aliased(p, b, b') {
        var m: nat :| WritesTo(p, b, m) && ReadsFrom(p, b', m);
        assert Touches(p, b, m, MemberBlock(p, b) % ADDRESSABLE) && DependsOn(p, b', m, MemberBlock(p, b) % ADDRESSABLE);
      }
    }
  }

  /** The member block of b lies below 2^52. */
  predicate Unwrapped(p: Pool, b: nat)
    requires Opened(p)
  {
    HasPlace(p, b) ==> MemberBlock(p, b) < ADDRESSABLE
  }

  /** Different blocks whose member blocks do not wrap are kept apart: bootstrap
      blocks in the first eight blocks of a member, data blocks in the rest. */
  lemma UnwrappedApart(p: Pool, b: nat, b': nat)
    requires Opened(p) && Unwrapped(p, b) && Unwrapped(p, b') && b != b'
    ensures !Aliased(p, b, b')
  {
    hide CellOf, BootstrapMembers, DataMembers, MapData;
    if HasPlace(p, b) && HasPlace(p, b') && MemberBlock(p, b) == MemberBlock(p, b') {
      if b >= DATA_START {
        MappedInside(p, b);
      }
      if b' >= DATA_START {
        MappedInside(p, b');
      }
      if b >= DATA_START && b' >= DATA_START {
        DataApart(p, b, b');
      }
    }
  }

  /** Data blocks in the same member block lie on different members, or are one. */
  lemma DataApart(p: Pool, b: nat, b': nat)
    requires Opened(p) && DATA_START <= b && DATA_START <= b' && b != b' && MapData(p, b).Ok? && MapData(p, b').Ok?
    requires MapData(p, b).value.block == MapData(p, b').value.block
    ensures forall m: nat :: !(WritesTo(p, b, m) && ReadsFrom(p, b', m))
  {
    hide DataMembers, MapLinear, MapStripe, MapParity;
    if p.profile == PROFILE_PARITY {
      ParityApart(p, b, b');
    }
    if MapData(p, b).value.member == MapData(p, b').value.member {
      MapInjective(p, b, b');
    }
  }

  /** What keeps member blocks from wrapping: member sizes below 2^52, or block
      numbers below it in a mirror. */
  lemma SmallMembersUnwrapped(p: Pool, b: nat)
    requires Opened(p)
    requires forall i :: 0 <= i < p.memberCount ==> DATA_START + DataBlocks(p, i) <= ADDRESSABLE
    ensures Unwrapped(p, b) <==> p.profile != PROFILE_MIRROR || b < ADDRESSABLE
  {
    hide DataBlocks, MapLinear, MapStripe, MapParity;
    MemberLists(p);
    if b >= DATA_START && MapData(p, b).Ok? {
      MappedInside(p, b);
    }
  }

  /** No write disturbs a logical block that is not aliased with its own, not even a
      write that fails or is torn part-way. */
  lemma WriteKeepsOthers(p: Pool, d: Disks, writable: bool, io: Faults, b: nat, buf: Block, bad: set<(nat, nat)>, b': nat)
    requires Attached(p, d) && !Aliased(p, b, b')
    ensures ReadBlock(p, WriteBlock(p, d, writable, io, b, buf).disks, bad, b') == ReadBlock(p, d, bad, b')
  {
    hide WriteBlock, ReadBlock, Touches, DependsOn;
    var d' := WriteBlock(p, d, writable, io, b, buf).disks;
    forall m: nat, c: nat | DependsOn(p, b', m, c) && m < |d|
      ensures SameAt(d', d, m, c)
    {
      AliasExact(p, b, b');
      WriteFrame(p, d, writable, io, b, buf, m, c);
    }
    ReadFrame(p, d', d, bad, b');
  }

  // ------------------------------------------------------------------ a block reads back

  /** Cell c of member m exists and holds v. */
  predicate CellHolds(d: Disks, m: nat, c: nat, v: Block) {
    m < |d| && c < |d[m]| && d[m][c] == v
  }

  lemma MemberWriteHolds(p: Pool, d: Disks, torn: map<(nat, nat), Block>, m: nat, mb: nat, buf: Block)
    requires Attached(p, d) && MemberWrite(p, d, torn, m, mb, buf).rc.Zero?
    ensures CellOf(mb).Ok? && CellHolds(MemberWrite(p, d, torn, m, mb, buf).disks, m, CellOf(mb).value, buf)
  {
  }

  /** A completed replicated write leaves the value on every replica. */
  lemma {:induction false} WriteReplicasHold(p: Pool, d: Disks, torn: map<(nat, nat), Block>, ms: seq<nat>, k: nat, mb: nat, buf: Block, i: nat)
    requires Attached(p, d) && k <= i < |ms| && Ascending(ms)
    requires WriteReplicas(p, d, torn, ms, k, mb, buf).rc.Zero?
    ensures CellOf(mb).Ok? && CellHolds(WriteReplicas(p, d, torn, ms, k, mb, buf).disks, ms[i], CellOf(mb).value, buf)
    decreases |ms| - k
  {
    var w := MemberWrite(p, d, torn, ms[k], mb, buf);
    if k < i {
      WriteReplicasHold(p, w.disks, torn, ms, k + 1, mb, buf, i);
    } else {
      MemberWriteHolds(p, d, torn, ms[k], mb, buf);
      assert ms[k] !in ms[k + 1..];
      WriteReplicasFrame(p, w.disks, torn, ms, k + 1, mb, buf, ms[k], CellOf(mb).value);
    }
  }

  /** After a completed write every cell a read of the block may use holds the
      new value. */
  lemma WriteHolds(p: Pool, d: Disks, writable: bool, io: Faults, b: nat, buf: Block, m: nat, c: nat)
    requires Attached(p, d) && WriteBlock(p, d, writable, io, b, buf).rc.Zero? && DependsOn(p, b, m, c)
    ensures CellHolds(WriteBlock(p, d, writable, io, b, buf).disks, m, c, buf)
  {
    MemberLists(p);
    if b < DATA_START {
      var ms := BootstrapMembers(p, b);
      var i :| 0 <= i < |ms| && ms[i] == m;
      WriteReplicasHold(p, d, io.torn, ms, 0, b, buf, i);
    } else {
      var mp := MapData(p, b).value;
      if p.profile == PROFILE_MIRROR {
        WriteReplicasHold(p, d, io.torn, DataMembers(p), 0, mp.block, buf, 0);
      } else if p.profile == PROFILE_PARITY {
        var oldData := MemberRead(p, d, io.bad, mp.member, mp.block);
        var oldParity := MemberRead(p, d, io.bad, mp.parity, mp.block);
        var newParity := XorBlock(XorBlock(oldParity.value, oldData.value), buf);
        var w := MemberWrite(p, d, io.torn, mp.parity, mp.block, newParity);
        MemberWriteHolds(p, w.disks, io.torn, mp.member, mp.block, buf);
      } else {
        MemberWriteHolds(p, d, io.torn, mp.member, mp.block, buf);
      }
    }
  }

  lemma {:induction false} ReadFirstHolds(p: Pool, d: Disks, bad: set<(nat, nat)>, ms: seq<nat>, k: nat, b: nat, c: nat, v: Block, i: nat)
    requires Attached(p, d) && k <= i < |ms| && CellOf(b) == Ok(c) && (ms[i], c) !in bad
    requires forall j :: k <= j < |ms| ==> CellHolds(d, ms[j], c, v)
    ensures ReadFirst(p, d, bad, ms, k, b) == Ok(v)
    decreases |ms| - k
  {
    assert CellHolds(d, ms[k], c, v);
    if (ms[k], c) in bad {
      ReadFirstHolds(p, d, bad, ms, k + 1, b, c, v, i);
    }
  }

  /** A completed write reads back, even if any proper subset of the responsible
      replicas of a bootstrap block can no longer be read. */
  lemma WriteReadsBack(p: Pool, d: Disks, writable: bool, io: Faults, b: nat, buf: Block, bad: set<(nat, nat)>)
    requires Attached(p, d) && WriteBlock(p, d, writable, io, b, buf).rc.Zero? && Reachable(p, bad, b)
    ensures ReadBlock(p, WriteBlock(p, d, writable, io, b, buf).disks, bad, b) == Ok(buf)
  {
    var d' := WriteBlock(p, d, writable, io, b, buf).disks;
    var m: nat, c: nat :| DependsOn(p, b, m, c) && (m, c) !in bad;
    WriteHolds(p, d, writable, io, b, buf, m, c);
    if b < DATA_START {
      var ms := BootstrapMembers(p, b);
      var i :| 0 <= i < |ms| && ms[i] == m;
      forall j | 0 <= j < |ms|
        ensures CellHolds(d', ms[j], c, buf)
      {
        assert DependsOn(p, b, ms[j], c);
        WriteHolds(p, d, writable, io, b, buf, ms[j], c);
      }
      ReadFirstHolds(p, d', bad, ms, 0, b, c, buf, i);
    }
  }

  // ----------------------------------------------------------------------------- runs

  datatype Op = Op(block: nat, buf: Block, io: Faults)

  /** The members after a run of writes. */
  function Run(p: Pool, d: Disks, ops: seq<Op>): (r: Disks)
    requires Attached(p, d)
    ensures Attached(p, r)
    decreases |ops|
  {
    if ops == [] then d
    else
      var last := ops[|ops| - 1];
      WriteBlock(p, Run(p, d, ops[..|ops| - 1]), true, last.io, last.block, last.buf).disks
  }

  /** Every write of the run returned 0. */
  ghost predicate Completes(p: Pool, d: Disks, ops: seq<Op>)
    requires Attached(p, d)
  {
    forall i :: 0 <= i < |ops| ==>
                  WriteBlock(p, Run(p, d, ops[..i]), true, ops[i].io, ops[i].block, ops[i].buf).rc.Zero?
  }

  lemma CompletesPrefix(p: Pool, d: Disks, ops: seq<Op>, n: nat)
    requires Attached(p, d) && Completes(p, d, ops) && n <= |ops|
    ensures Completes(p, d, ops[..n])
  {
    assert forall i :: 0 <= i < n ==> ops[..n][..i] == ops[..i] && ops[..n][i] == ops[i];
  }

  /** A flat array of blocks after the same run. */
  function Flat(initial: map<nat, Block>, ops: seq<Op>): map<nat, Block>
    decreases |ops|
  {
    if ops == [] then initial
    else Flat(initial, ops[..|ops| - 1])[ops[|ops| - 1].block := ops[|ops| - 1].buf]
  }

  /** Block b reads as the array has it, if it can be read at all. */
  ghost predicate Shows(p: Pool, d: Disks, bad: set<(nat, nat)>, flat: map<nat, Block>, b: nat)
    requires Attached(p, d)
  {
    b in flat && Reachable(p, bad, b) ==> ReadBlock(p, d, bad, b) == Ok(flat[b])
  }

  /** No write of another block in the run is aliased with b. */
  ghost predicate Undisturbed(p: Pool, ops: seq<Op>, b: nat)
    requires Opened(p)
  {
    forall i :: 0 <= i < |ops| ==> ops[i].block == b || !Aliased(p, ops[i].block, b)
  }

  /** Refinement: over every run of completed writes a pool of any profile shows
      what a flat array would hold, and blocks never written read as before. */
  lemma {:induction false} RunRefinesFlat(p: Pool, d: Disks, ops: seq<Op>, bad: set<(nat, nat)>, initial: map<nat, Block>, b: nat)
    requires Attached(p, d) && Completes(p, d, ops) && Undisturbed(p, ops, b) && Shows(p, d, bad, initial, b)
    ensures Shows(p, Run(p, d, ops), bad, Flat(initial, ops), b)
    ensures (forall i :: 0 <= i < |ops| ==> ops[i].block != b) ==> ReadBlock(p, Run(p, d, ops), bad, b) == ReadBlock(p, d, bad, b)
    decreases |ops|
  {
    hide WriteBlock, ReadBlock, Shows, Attached, Aliased;
    if ops != [] {
      var n := |ops| - 1;
      var before := ops[..n];
      CompletesPrefix(p, d, ops, n);
      assert forall i :: 0 <= i < n ==> before[i] == ops[i];
      RunRefinesFlat(p, d, before, bad, initial, b);
      StepShows(p, Run(p, d, before), ops[n], bad, Flat(initial, before), b);
    }
  }

  /** One completed write: the written block shows, the others stay. */
  lemma StepShows(p: Pool, d: Disks, op: Op, bad: set<(nat, nat)>, flat: map<nat, Block>, b: nat)
    requires Attached(p, d) && Shows(p, d, bad, flat, b) && (b == op.block || !Aliased(p, op.block, b))
    requires WriteBlock(p, d, true, op.io, op.block, op.buf).rc.Zero?
    ensures var d' := WriteBlock(p, d, true, op.io, op.block, op.buf).disks;
            && Shows(p, d', bad, flat[op.block := op.buf], b)
            && (b != op.block ==> ReadBlock(p, d', bad, b) == ReadBlock(p, d, bad, b))
  {
    hide WriteBlock, ReadBlock, Reachable, Aliased;
    if b != op.block {
      WriteKeepsOthers(p, d, true, op.io, op.block, op.buf, bad, b);
    } else if Reachable(p, bad, b) {
      WriteReadsBack(p, d, true, op.io, op.block, op.buf, bad);
    }
  }

  /** Where no member block wraps, nothing is disturbed. */
  lemma UnwrappedUndisturbed(p: Pool, ops: seq<Op>, b: nat)
    requires Opened(p) && Unwrapped(p, b) && forall i :: 0 <= i < |ops| ==> Unwrapped(p, ops[i].block)
    ensures Undisturbed(p, ops, b)
  {
    hide Unwrapped, Aliased;
    forall i | 0 <= i < |ops|
      ensures ops[i].block == b || !Aliased(p, ops[i].block, b)
    {
      if ops[i].block != b {
        UnwrappedApart(p, ops[i].block, b);
      }
    }
  }

  // ----------------------------------------------------------------- where it stops

  function Disk(n: nat): seq<Block> {
    seq(n, _ => ZeroBlock())
  }

  /** Members of n zero blocks. */
  function ZeroDisks(p: Pool, n: nat): Disks {
    seq(p.memberCount, _ => Disk(n))
  }

  /** Every member has cell c. */
  predicate AllHave(p: Pool, d: Disks, c: nat) {
    |d| == p.memberCount && forall m :: 0 <= m < |d| ==> c < |d[m]|
  }

  lemma MemberWriteCompletes(p: Pool, d: Disks, m: nat, mb: nat, c: nat, buf: Block)
    requires Attached(p, d) && AllHave(p, d, c) && CellOf(mb) == Ok(c) && m < p.memberCount
    ensures var w := MemberWrite(p, d, map[], m, mb, buf); w.rc.Zero? && AllHave(p, w.disks, c) && w.disks == Store(d, m, c, buf)
  {
  }

  lemma {:induction false} ReplicasComplete(p: Pool, d: Disks, ms: seq<nat>, k: nat, mb: nat, c: nat, buf: Block)
    requires Attached(p, d) && AllHave(p, d, c) && CellOf(mb) == Ok(c) && k <= |ms|
    requires forall i :: 0 <= i < |ms| ==> ms[i] < p.memberCount
    ensures WriteReplicas(p, d, map[], ms, k, mb, buf).rc.Zero?
    decreases |ms| - k
  {
    hide CellOf, MemberWrite;
    if k < |ms| {
      MemberWriteCompletes(p, d, ms[k], mb, c, buf);
      ReplicasComplete(p, MemberWrite(p, d, map[], ms[k], mb, buf).disks, ms, k + 1, mb, c, buf);
    }
  }

  /** A write without faults over zero blocks completes and leaves the buffer in
      every cell it goes to, parity included. */
  lemma ZeroWriteHolds(p: Pool, n: nat, b: nat, c: nat, buf: Block, m: nat)
    requires Opened(p) && Touches(p, b, m, c) && c < n
    ensures var w := WriteBlock(p, ZeroDisks(p, n), true, Faults({}, map[]), b, buf);
            w.rc.Zero? && CellHolds(w.disks, m, c, buf)
  {
    hide CellOf, MemberWrite, WriteReplicas, WriteParity, MapData;
    var d, mb := ZeroDisks(p, n), MemberBlock(p, b);
    MemberLists(p);
    if b < DATA_START {
      ReplicasComplete(p, d, BootstrapMembers(p, b), 0, b, c, buf);
      var i :| 0 <= i < |BootstrapMembers(p, b)| && BootstrapMembers(p, b)[i] == m;
      WriteReplicasHold(p, d, map[], BootstrapMembers(p, b), 0, b, buf, i);
    } else {
      MappedInside(p, b);
      if p.profile == PROFILE_MIRROR {
        ReplicasComplete(p, d, DataMembers(p), 0, mb, c, buf);
        var i :| 0 <= i < |DataMembers(p)| && DataMembers(p)[i] == m;
        WriteReplicasHold(p, d, map[], DataMembers(p), 0, mb, buf, i);
      } else if p.profile == PROFILE_PARITY {
        ParityApart(p, b, b);
        ZeroParityHolds(p, n, c, MapData(p, b).value, buf);
      } else {
        MemberWriteCompletes(p, d, m, mb, c, buf);
      }
    }
  }

  lemma ZeroParityHolds(p: Pool, n: nat, c: nat, m: Mapping, buf: Block)
    requires Opened(p) && c < n && CellOf(m.block) == Ok(c) && m.member < p.memberCount && m.parity < p.memberCount && m.member != m.parity
    ensures var w := WriteParity(p, ZeroDisks(p, n), Faults({}, map[]), m, buf);
            w.rc.Zero? && CellHolds(w.disks, m.member, c, buf) && CellHolds(w.disks, m.parity, c, buf)
  {
    hide CellOf, XorBlock, MemberWrite;
    var d := ZeroDisks(p, n);
    XorBlockZero(ZeroBlock());
    XorBlockZero(buf);
    MemberWriteCompletes(p, d, m.parity, m.block, c, buf);
    MemberWriteCompletes(p, Store(d, m.parity, c, buf), m.member, m.block, c, buf);
  }

  /** The condition is exact: where b and b' are aliased, a write of b without any
      fault changes what b' reads. */
  lemma AliasDisturbs(p: Pool, b: nat, b': nat) returns (d: Disks, buf: Block, bad: set<(nat, nat)>)
    requires Opened(p) && Aliased(p, b, b')
    ensures Attached(p, d)
    ensures var w := WriteBlock(p, d, true, Faults({}, map[]), b, buf);
            && w.rc.Zero? && ReadBlock(p, d, bad, b') == Ok(ZeroBlock())
            && ReadBlock(p, w.disks, bad, b') == Ok(buf) && buf != ZeroBlock()
  {
    hide WriteBlock, MapData, CellOf;
    var c := MemberBlock(p, b) % ADDRESSABLE;
    CellOfExact(MemberBlock(p, b));
    CellOfExact(MemberBlock(p, b'));
    var m: nat :| WritesTo(p, b, m) && ReadsFrom(p, b', m);
    d, buf := ZeroDisks(p, c + 1), seq(4096, _ => 1);
    assert buf[0] != ZeroBlock()[0];
    ZeroWriteHolds(p, c + 1, b, c, buf, m);
    bad := OthersBad(p, m, c);
    OnlyReads(p, d, bad, b', m, c);
    OnlyReads(p, WriteBlock(p, d, true, Faults({}, map[]), b, buf).disks, bad, b', m, c);
  }

  /** Cell c is unreadable on every member but m. */
  function OthersBad(p: Pool, m: nat, c: nat): set<(nat, nat)> {
    set m' | 0 <= m' < p.memberCount && m' != m :: (m', c)
  }

  lemma OnlyReads(p: Pool, d: Disks, bad: set<(nat, nat)>, b: nat, m: nat, c: nat)
    requires Attached(p, d) && DependsOn(p, b, m, c) && bad == OthersBad(p, m, c) && m < |d| && c < |d[m]|
    ensures ReadBlock(p, d, bad, b) == Ok(d[m][c])
  {
    hide MapData, CellOf;
    MemberLists(p);
    if b < DATA_START {
      var ms := BootstrapMembers(p, b);
      var i :| 0 <= i < |ms| && ms[i] == m;
      OnlyReplica(p, d, bad, ms, 0, b, c, i);
    } else {
      MappedInside(p, b);
    }
  }

  /** With every other replica unreadable, the read takes the one left. */
  lemma {:induction false} OnlyReplica(p: Pool, d: Disks, bad: set<(nat, nat)>, ms: seq<nat>, k: nat, b: nat, c: nat, i: nat)
    requires Attached(p, d) && k <= i < |ms| && CellOf(b) == Ok(c) && ms[i] < p.memberCount && c < |d[ms[i]]|
    requires forall j :: 0 <= j < |ms| ==> ((ms[j], c) in bad <==> ms[j] != ms[i])
    ensures ReadFirst(p, d, bad, ms, k, b) == Ok(d[ms[i]][c])
    decreases |ms| - k
  {
    hide CellOf;
    if ms[k] != ms[i] {
      OnlyReplica(p, d, bad, ms, k + 1, b, c, i);
    }
  }

  /** On any mirror of one device, writing block 2^52 completes and replaces
      block 0, the pool label. */
  lemma MirrorAliasExample(p: Pool, d: Disks, w: Block)
    requires Attached(p, d) && p.profile == PROFILE_MIRROR && p.memberCount == 1 && d[0] != []
    ensures Aliased(p, ADDRESSABLE, 0)
    ensures var r := WriteBlock(p, d, true, Faults({}, map[]), ADDRESSABLE, w);
            r.rc.Zero? && ReadBlock(p, r.disks, {}, 0) == Ok(w)
  {
    CellOfExact(ADDRESSABLE);
    CellOfExact(0);
    MemberLists(p);
    OnlyMemberZero(DataMembers(p));
    OnlyMemberZero(MetadataMembers(p));
    assert WritesTo(p, ADDRESSABLE, 0) && ReadsFrom(p, 0, 0);
    var w0 := MemberWrite(p, d, map[], 0, ADDRESSABLE, w);
    assert w0.rc.Zero? && w0.disks[0][0] == w;
    assert WriteReplicas(p, d, map[], [0], 0, ADDRESSABLE, w) == w0;
    assert ReadFirst(p, w0.disks, {}, [0], 0, 0) == Ok(w);
  }

  /** The same happens without a mirror, on a member large enough. */
  lemma LinearAliasExample(p: Pool)
    requires SizesValid(p) && p.profile == PROFILE_SINGLE && p.memberCount == 1 && DataBlocks(p, 0) > ADDRESSABLE
    ensures Aliased(p, ADDRESSABLE + DATA_START, DATA_START)
  {
    MemberLists(p);
    OnlyMemberZero(DataMembers(p));
    LinearAlone(p, DATA_START);
    LinearAlone(p, ADDRESSABLE + DATA_START);
    assert WritesTo(p, ADDRESSABLE + DATA_START, 0) && ReadsFrom(p, DATA_START, 0);
  }

  lemma LinearAlone(p: Pool, b: nat)
    requires Opened(p) && p.profile == PROFILE_SINGLE && DataMembers(p) == [0] && DATA_START <= b < DATA_START + DataBlocks(p, 0)
    ensures MapData(p, b) == Ok(Mapping(0, NO_PARITY, b))
  {
    assert LinearFrom(p, [0], 0, b - DATA_START) == Ok(Mapping(0, NO_PARITY, b));
  }

  lemma OnlyMemberZero(ms: seq<nat>)
    requires MemberList(ms, 1)
    ensures ms == [0]
  {
    if |ms| > 1 {
      AscendingPair(ms);
    }
    assert ms[0] == 0;
  }

  lemma AscendingPair(ms: seq<nat>)
    requires Ascending(ms) && |ms| > 1
    ensures ms[0] < ms[1]
  {
  }
}
