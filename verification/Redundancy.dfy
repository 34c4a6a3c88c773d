/** Replicas and parity rows: what the redundancy scrub checks, that completed
    writes keep it, and what a parity write stopped half-way leaves. */
module Redundancy {
  import opened Bytes
  import opened Masks
  import opened PoolMap
  import opened PoolBlocks
  import opened PoolRefinement
  import opened Intervals

  // ------------------------------------------------------------------------ the scrub

  /** `memcmp` of two blocks is zero. */
  predicate SameBytes(a: Block, b: Block) {
    a == b
  }

  /** Compares ms[k..] with the baseline, in order. */
  function CompareFrom(p: Pool, d: Disks, bad: set<(nat, nat)>, ms: seq<nat>, mb: nat, base: Block, k: nat): Rc
    requires Attached(p, d) && k <= |ms|
    decreases |ms| - k
  {
    if k == |ms| then Zero else
    var r := MemberRead(p, d, bad, ms[k], mb);
    if r.Err? then Neg(r.error)
    else if !SameBytes(r.value, base) then Neg(EILSEQ)
    else CompareFrom(p, d, bad, ms, mb, base, k + 1)
  }

  /** One block of a replicated area: the first member is the baseline. */
  function ScrubReplicas(p: Pool, d: Disks, bad: set<(nat, nat)>, ms: seq<nat>, mb: nat): Rc
    requires Attached(p, d)
  {
    if |ms| <= 1 then Zero else
    var base := MemberRead(p, d, bad, ms[0], mb);
    if base.Err? then Neg(base.error) else CompareFrom(p, d, bad, ms, mb, base.value, 1)
  }

  /** Accumulates the exclusive or of the first k members of a row. */
  function RowSum(p: Pool, d: Disks, bad: set<(nat, nat)>, ms: seq<nat>, mb: nat, k: nat): Result<Block>
    requires Attached(p, d) && k <= |ms|
    decreases k
  {
    if k == 0 then Ok(ZeroBlock())
    else Accumulate(RowSum(p, d, bad, ms, mb, k - 1), MemberRead(p, d, bad, ms[k - 1], mb))
  }

  function Accumulate(sum: Result<Block>, r: Result<Block>): Result<Block> {
    if sum.Err? then sum else if r.Err? then r else Ok(XorBlock(sum.value, r.value))
  }

  /** The scrub of one used data block. */
  function ScrubOne(p: Pool, d: Disks, bad: set<(nat, nat)>, b: nat): Rc
    requires Attached(p, d) && b >= DATA_START
  {
    if p.profile == PROFILE_MIRROR then ScrubReplicas(p, d, bad, DataMembers(p), b)
    else if p.profile == PROFILE_PARITY then
      var m := MapParity(p, b);
      if m.Err? then Neg(m.error) else
      var sum := RowSum(p, d, bad, DataMembers(p), m.value.block, |DataMembers(p)|);
      if sum.Err? then Neg(sum.error)
      else if !SameBytes(sum.value, ZeroBlock()) then Neg(EILSEQ) else Zero
    else Zero
  }

  /** Blocks start + off .. start + len - 1 in order. */
  function ScrubSpan(p: Pool, d: Disks, bad: set<(nat, nat)>, x: Interval, off: nat): Rc
    requires Attached(p, d) && off <= x.len && x.start >= DATA_START
    decreases x.len - off
  {
    if off == x.len then Zero else
    var rc := ScrubOne(p, d, bad, x.start + off);
    if rc.Neg? then rc else ScrubSpan(p, d, bad, x, off + 1)
  }

  function ScrubList(p: Pool, d: Disks, bad: set<(nat, nat)>, used: seq<Interval>, i: nat): Rc
    requires Attached(p, d) && i <= |used|
    decreases |used| - i
  {
    if i == |used| then Zero
    else if used[i].start < DATA_START then ScrubList(p, d, bad, used, i + 1)
    else
      var rc := ScrubSpan(p, d, bad, used[i], 0);
      if rc.Neg? then rc else ScrubList(p, d, bad, used, i + 1)
  }

  /** Blocks b .. 7 of the bootstrap area. */
  function ScrubBootstrap(p: Pool, d: Disks, bad: set<(nat, nat)>, b: nat): Rc
    requires Attached(p, d) && b <= DATA_START
    decreases DATA_START - b
  {
    if b == DATA_START then Zero else
    var rc := ScrubReplicas(p, d, bad, BootstrapMembers(p, b), b);
    if rc.Neg? then rc else ScrubBootstrap(p, d, bad, b + 1)
  }

  /** `aetherfs_image_validate_pool_redundancy`. The used intervals come from an
      accepted sweep, so none of them wraps. */
  function Scrub(p: Pool, d: Disks, bad: set<(nat, nat)>, used: seq<Interval>): Rc
    requires Attached(p, d)
  {
    var rc := ScrubBootstrap(p, d, bad, SUPER_BLOCK);
    if rc.Neg? then rc
    else if p.profile == PROFILE_MIRROR && |DataMembers(p)| <= 1 then Zero
    else if p.profile == PROFILE_PARITY && |DataMembers(p)| < 3 then Neg(EINVAL)
    else if p.profile == PROFILE_MIRROR || p.profile == PROFILE_PARITY then ScrubList(p, d, bad, used, 0)
    else Zero
  }

  /** The loops of the scrub. */
  method RunScrub(p: Pool, d: Disks, bad: set<(nat, nat)>, used: seq<Interval>) returns (rc: Rc)
    requires Attached(p, d)
    ensures rc == Scrub(p, d, bad, used)
  {
    var block := SUPER_BLOCK;
    while block < DATA_START
      invariant block <= DATA_START
      invariant ScrubBootstrap(p, d, bad, SUPER_BLOCK) == ScrubBootstrap(p, d, bad, block)
    {
      rc := CompareReplicas(p, d, bad, BootstrapMembers(p, block), block);
      if rc.Neg? {
        return;
      }
      block := block + 1;
    }
    if p.profile == PROFILE_MIRROR && |DataMembers(p)| <= 1 {
      return Zero;
    }
    if p.profile == PROFILE_PARITY && |DataMembers(p)| < 3 {
      return Neg(EINVAL);
    }
    if p.profile != PROFILE_MIRROR && p.profile != PROFILE_PARITY {
      return Zero;
    }
    rc := RunScrubList(p, d, bad, used);
  }

  method RunScrubList(p: Pool, d: Disks, bad: set<(nat, nat)>, used: seq<Interval>) returns (rc: Rc)
    requires Attached(p, d) && (p.profile == PROFILE_MIRROR || p.profile == PROFILE_PARITY)
    ensures rc == ScrubList(p, d, bad, used, 0)
  {
    var i := 0;
    while i < |used|
      invariant i <= |used|
      invariant ScrubList(p, d, bad, used, 0) == ScrubList(p, d, bad, used, i)
    {
      if used[i].start >= DATA_START {
        rc := RunScrubSpan(p, d, bad, used[i]);
        if rc.Neg? {
          return;
        }
      }
      i := i + 1;
    }
    rc := Zero;
  }

  method RunScrubSpan(p: Pool, d: Disks, bad: set<(nat, nat)>, x: Interval) returns (rc: Rc)
    requires Attached(p, d) && (p.profile == PROFILE_MIRROR || p.profile == PROFILE_PARITY)
    requires x.start >= DATA_START
    ensures rc == ScrubSpan(p, d, bad, x, 0)
  {
    hide DataMembers, MapParity, ScrubReplicas, RowSum;
    var offset := 0;
    while offset < x.len
      invariant offset <= x.len
      invariant ScrubSpan(p, d, bad, x, 0) == ScrubSpan(p, d, bad, x, offset)
    {
      if p.profile == PROFILE_MIRROR {
        rc := CompareReplicas(p, d, bad, DataMembers(p), x.start + offset);
      } else {
        rc := CheckRow(p, d, bad, x.start + offset);
      }
      if rc.Neg? {
        return;
      }
      offset := offset + 1;
    }
    rc := Zero;
  }

  method CompareReplicas(p: Pool, d: Disks, bad: set<(nat, nat)>, ms: seq<nat>, mb: nat) returns (rc: Rc)
    requires Attached(p, d)
    ensures rc == ScrubReplicas(p, d, bad, ms, mb)
  {
    if |ms| <= 1 {
      return Zero;
    }
    var base := MemberRead(p, d, bad, ms[0], mb);
    if base.Err? {
      return Neg(base.error);
    }
    var ordinal := 1;
    while ordinal < |ms|
      invariant 1 <= ordinal <= |ms|
      invariant ScrubReplicas(p, d, bad, ms, mb) == CompareFrom(p, d, bad, ms, mb, base.value, ordinal)
    {
      var candidate := MemberRead(p, d, bad, ms[ordinal], mb);
      if candidate.Err? {
        return Neg(candidate.error);
      }
      if candidate.value != base.value {
        return Neg(EILSEQ);
      }
      ordinal := ordinal + 1;
    }
    rc := Zero;
  }

  method CheckRow(p: Pool, d: Disks, bad: set<(nat, nat)>, b: nat) returns (rc: Rc)
    requires Attached(p, d) && b >= DATA_START && p.profile == PROFILE_PARITY
    ensures rc == ScrubOne(p, d, bad, b)
  {
    var mapping := MapParity(p, b);
    if mapping.Err? {
      return Neg(mapping.error);
    }
    var ms := DataMembers(p);
    var parity := ZeroBlock();
    for ordinal := 0 to |ms|
      invariant RowSum(p, d, bad, ms, mapping.value.block, ordinal) == Ok(parity)
    {
      var r := MemberRead(p, d, bad, ms[ordinal], mapping.value.block);
      if r.Err? {
        RowSumStops(p, d, bad, ms, mapping.value.block, ordinal + 1, |ms|);
        return Neg(r.error);
      }
      parity := XorBlock(parity, r.value);
    }
    rc := if parity != ZeroBlock() then Neg(EILSEQ) else Zero;
  }

  lemma {:induction false} RowSumStops(p: Pool, d: Disks, bad: set<(nat, nat)>, ms: seq<nat>, mb: nat, i: nat, k: nat)
    requires Attached(p, d) && i <= k <= |ms| && RowSum(p, d, bad, ms, mb, i).Err?
    ensures RowSum(p, d, bad, ms, mb, k) == RowSum(p, d, bad, ms, mb, i)
    decreases k
  {
    if i < k {
      RowSumStops(p, d, bad, ms, mb, i, k - 1);
    }
  }

  // ---------------------------------------------------------------- clean rows, exactly

  /** Cell c exists on all of ms. */
  ghost predicate OnAll(d: Disks, ms: seq<nat>, c: nat) {
    forall i :: 0 <= i < |ms| ==> HasCell(d, ms[i], c)
  }

  predicate HasCell(d: Disks, m: nat, c: nat) {
    m < |d| && c < |d[m]|
  }

  /** The members of ms agree on cell c. */
  ghost predicate Agree(d: Disks, ms: seq<nat>, c: nat) {
    OnAll(d, ms, c) && forall i, j :: 0 <= i < |ms| && 0 <= j < |ms| ==> d[ms[i]][c] == d[ms[j]][c]
  }

  /** The exclusive or of cell c over those of the first k members that have it. */
  ghost function RowXor(d: Disks, ms: seq<nat>, c: nat, k: nat): Block
    requires k <= |ms|
    decreases k
  {
    if k == 0 then ZeroBlock()
    else if HasCell(d, ms[k - 1], c) then XorBlock(RowXor(d, ms, c, k - 1), d[ms[k - 1]][c])
    else RowXor(d, ms, c, k - 1)
  }

  lemma {:induction false} CompareFromExact(p: Pool, d: Disks, ms: seq<nat>, mb: nat, c: nat, base: Block, k: nat)
    requires Attached(p, d) && k <= |ms| && CellOf(mb) == Ok(c)
    requires forall i :: 0 <= i < |ms| ==> ms[i] < p.memberCount
    ensures CompareFrom(p, d, {}, ms, mb, base, k).Zero? <==>
            forall i :: k <= i < |ms| ==> c < |d[ms[i]]| && d[ms[i]][c] == base
    decreases |ms| - k
  {
    hide CellOf;
    if k < |ms| {
      CompareFromExact(p, d, ms, mb, c, base, k + 1);
    }
  }

  /** The replica scrub accepts a block exactly when all its replicas exist and agree. */
  lemma ScrubReplicasExact(p: Pool, d: Disks, ms: seq<nat>, mb: nat)
    requires Attached(p, d) && |ms| >= 2
    requires forall i :: 0 <= i < |ms| ==> ms[i] < p.memberCount
    ensures ScrubReplicas(p, d, {}, ms, mb).Zero? <==> CellOf(mb).Ok? && Agree(d, ms, CellOf(mb).value)
  {
    hide CellOf;
    var base := MemberRead(p, d, {}, ms[0], mb);
    if base.Ok? {
      CompareFromExact(p, d, ms, mb, CellOf(mb).value, base.value, 1);
    }
  }

  lemma {:induction false} RowSumExact(p: Pool, d: Disks, ms: seq<nat>, mb: nat, c: nat, k: nat)
    requires Attached(p, d) && k <= |ms| && CellOf(mb) == Ok(c)
    requires forall i :: 0 <= i < |ms| ==> ms[i] < p.memberCount
    ensures RowSum(p, d, {}, ms, mb, k) ==
            if forall i :: 0 <= i < k ==> HasCell(d, ms[i], c) then Ok(RowXor(d, ms, c, k)) else Err(EIO)
    decreases k
  {
    hide CellOf, XorBlock;
    if k != 0 {
      RowSumExact(p, d, ms, mb, c, k - 1);
    }
  }

  /** The parity scrub accepts a block exactly when it is mapped and its row is
      complete and cancels. */
  lemma ScrubRowExact(p: Pool, d: Disks, b: nat)
    requires Attached(p, d) && p.profile == PROFILE_PARITY && DATA_START <= b
    ensures ScrubOne(p, d, {}, b).Zero? <==>
            && MapParity(p, b).Ok? && CellOf(MapParity(p, b).value.block).Ok?
            && var c := CellOf(MapParity(p, b).value.block).value; var ms := DataMembers(p);
               OnAll(d, ms, c) && RowXor(d, ms, c, |ms|) == ZeroBlock()
  {
    hide MapParity, DataMembers, RowXor, RowSum, CellOf;
    if MapParity(p, b).Ok? {
      MemberLists(p);
      var mb := MapParity(p, b).value.block;
      if CellOf(mb).Ok? {
        RowSumExact(p, d, DataMembers(p), mb, CellOf(mb).value, |DataMembers(p)|);
      } else {
        RowUnaddressed(p, d, DataMembers(p), mb, |DataMembers(p)|);
      }
    }
  }

  /** A row whose byte offset is refused cannot be summed. */
  lemma {:induction false} RowUnaddressed(p: Pool, d: Disks, ms: seq<nat>, mb: nat, k: nat)
    requires Attached(p, d) && 0 < k <= |ms| && CellOf(mb).Err?
    ensures RowSum(p, d, {}, ms, mb, k).Err?
    decreases k
  {
    hide CellOf;
    if k > 1 {
      RowUnaddressed(p, d, ms, mb, k - 1);
    }
  }

  lemma ParityIsData(p: Pool, b: nat)
    requires PoolMap.Opened(p) && p.profile == PROFILE_PARITY && b >= DATA_START
    ensures MapData(p, b) == MapParity(p, b)
  {
    hide MapParity;
  }

  // --------------------------------------------------------------------- conservation

  lemma {:induction false} RowXorStore(d: Disks, ms: seq<nat>, c: nat, k: nat, j: nat, v: Block)
    requires k <= |ms| && j < |ms| && Ascending(ms) && HasCell(d, ms[j], c)
    ensures RowXor(Store(d, ms[j], c, v), ms, c, k) ==
            if j < k then XorBlock(RowXor(d, ms, c, k), XorBlock(d[ms[j]][c], v)) else RowXor(d, ms, c, k)
    decreases k
  {
    hide XorBlock;
    if k != 0 {
      RowXorStore(d, ms, c, k - 1, j, v);
      if k - 1 == j {
        XorReplace(RowXor(d, ms, c, j), d[ms[j]][c], v);
      } else {
        assert ms[k - 1] != ms[j];
        if j < k - 1 && HasCell(d, ms[k - 1], c) {
          XorSwap(RowXor(d, ms, c, k - 1), XorBlock(d[ms[j]][c], v), d[ms[k - 1]][c]);
        }
      }
    }
  }

  lemma XorReplace(a: Block, old': Block, v: Block)
    ensures XorBlock(a, v) == XorBlock(XorBlock(a, old'), XorBlock(old', v))
  {
    XorBlockAssoc(a, old', XorBlock(old', v));
    XorBlockAssoc(old', old', v);
    XorBlockCancels(old', old');
    XorBlockZero(v);
  }

  lemma XorSwap(a: Block, b: Block, c: Block)
    ensures XorBlock(XorBlock(a, b), c) == XorBlock(XorBlock(a, c), b)
  {
    XorBlockAssoc(a, b, c);
    XorBlockComm(b, c);
    XorBlockAssoc(a, c, b);
  }

  /** The two stores of a parity update cancel in the row. */
  lemma ParityUpdateCancels(row: Block, oldParity: Block, oldData: Block, buf: Block)
    ensures var newParity := XorBlock(XorBlock(oldParity, oldData), buf);
            && XorBlock(oldParity, newParity) == XorBlock(oldData, buf)
            && XorBlock(XorBlock(row, XorBlock(oldParity, newParity)), XorBlock(oldData, buf)) == row
  {
    var delta := XorBlock(oldData, buf);
    XorBlockAssoc(oldParity, oldData, buf);
    XorBlockAssoc(oldParity, oldParity, delta);
    XorBlockCancels(oldParity, oldParity);
    XorBlockZero(delta);
    XorBlockAssoc(row, delta, delta);
    XorBlockCancels(delta, delta);
    XorBlockZero(row);
  }

  lemma MemberWriteStores(p: Pool, d: Disks, torn: map<(nat, nat), Block>, m: nat, mb: nat, c: nat, buf: Block)
    requires Attached(p, d) && CellOf(mb) == Ok(c) && MemberWrite(p, d, torn, m, mb, buf).rc.Zero?
    ensures HasCell(d, m, c) && MemberWrite(p, d, torn, m, mb, buf).disks == Store(d, m, c, buf)
  {
  }

  /** The ordinals of a mapped block's data and parity members in its row. */
  lemma ParityOrdinals(p: Pool, b: nat) returns (i: nat, j: nat)
    requires Opened(p) && p.profile == PROFILE_PARITY && DATA_START <= b && MapData(p, b).Ok?
    ensures var ms := DataMembers(p); var m := MapData(p, b).value;
            && MemberList(ms, p.memberCount)
            && i < |ms| && j < |ms| && ms[i] == m.member && ms[j] == m.parity && m.member != m.parity && m.block >= DATA_START
  {
    hide MapData;
    MemberLists(p);
    MappedInside(p, b);
    ParityApart(p, b, b);
    var ms := DataMembers(p);
    i :| 0 <= i < |ms| && ms[i] == MapData(p, b).value.member;
    j :| 0 <= j < |ms| && ms[j] == MapData(p, b).value.parity;
  }

  /** The row after the two stores of a parity update. */
  lemma TwoStores(d: Disks, ms: seq<nat>, c: nat, i: nat, j: nat, buf: Block)
    requires Ascending(ms) && i < |ms| && j < |ms| && i != j && HasCell(d, ms[i], c) && HasCell(d, ms[j], c)
    ensures var newParity := XorBlock(XorBlock(d[ms[j]][c], d[ms[i]][c]), buf);
            var half := Store(d, ms[j], c, newParity);
            && HasCell(half, ms[i], c) && half[ms[i]][c] == d[ms[i]][c]
            && RowXor(half, ms, c, |ms|) == XorBlock(RowXor(d, ms, c, |ms|), XorBlock(d[ms[i]][c], buf))
            && RowXor(Store(half, ms[i], c, buf), ms, c, |ms|) == RowXor(d, ms, c, |ms|)
  {
    hide XorBlock, RowXor;
    var newParity := XorBlock(XorBlock(d[ms[j]][c], d[ms[i]][c]), buf);
    var half := Store(d, ms[j], c, newParity);
    assert ms[i] != ms[j];
    RowXorStore(d, ms, c, |ms|, j, newParity);
    RowXorStore(half, ms, c, |ms|, i, buf);
    ParityUpdateCancels(RowXor(d, ms, c, |ms|), d[ms[j]][c], d[ms[i]][c], buf);
  }

  /** A completed parity write leaves the exclusive or of its row unchanged. */
  lemma ParityWriteConserves(p: Pool, d: Disks, io: Faults, b: nat, buf: Block)
    requires Attached(p, d) && p.profile == PROFILE_PARITY && DATA_START <= b
    requires WriteBlock(p, d, true, io, b, buf).rc.Zero?
    ensures MapData(p, b).Ok? && CellOf(MapData(p, b).value.block).Ok?
    ensures var ms := DataMembers(p); var c := CellOf(MapData(p, b).value.block).value;
            var d' := WriteBlock(p, d, true, io, b, buf).disks;
            RowXor(d', ms, c, |ms|) == RowXor(d, ms, c, |ms|)
  {
    hide MapData, CellOf, RowXor, XorBlock, WriteParity;
    var i, j := ParityOrdinals(p, b);
    var ms := DataMembers(p);
    var m := MapData(p, b).value;
    ParityWriteStores(p, d, io, m, buf);
    TwoStores(d, ms, CellOf(m.block).value, i, j, buf);
  }

  lemma ParityWriteStores(p: Pool, d: Disks, io: Faults, m: Mapping, buf: Block)
    requires Attached(p, d) && m.member != m.parity
    requires WriteParity(p, d, io, m, buf).rc.Zero?
    ensures CellOf(m.block).Ok? && HasCell(d, m.member, CellOf(m.block).value) && HasCell(d, m.parity, CellOf(m.block).value)
    ensures var c := CellOf(m.block).value;
            var newParity := XorBlock(XorBlock(d[m.parity][c], d[m.member][c]), buf);
            WriteParity(p, d, io, m, buf).disks == Store(Store(d, m.parity, c, newParity), m.member, c, buf)
  {
    hide CellOf, XorBlock;
    var c := CellOf(m.block).value;
    var newParity := XorBlock(XorBlock(d[m.parity][c], d[m.member][c]), buf);
    MemberWriteStores(p, d, io.torn, m.parity, m.block, c, newParity);
    MemberWriteStores(p, Store(d, m.parity, c, newParity), io.torn, m.member, m.block, c, buf);
  }

  // ------------------------------------------------------------------ a write stopped half-way

  /** A parity write that stops between its two member writes: the parity is stored,
      the data cell keeps what it had. */
  function StoppedWrite(p: Pool, d: Disks, b: nat): Faults
    requires Attached(p, d) && b >= DATA_START && MapData(p, b).Ok?
  {
    var m := MapData(p, b).value;
    if CellOf(m.block).Ok? && HasCell(d, m.member, CellOf(m.block).value)
    then Faults({}, map[(m.member, CellOf(m.block).value) := d[m.member][CellOf(m.block).value]])
    else Faults({}, map[])
  }

  /** What such a write leaves: the new parity if both cells exist, nothing otherwise. */
  lemma StoppedWriteStores(p: Pool, d: Disks, b: nat, c: nat, buf: Block)
    requires Attached(p, d) && p.profile == PROFILE_PARITY && b >= DATA_START && MapData(p, b).Ok?
    requires CellOf(MapData(p, b).value.block) == Ok(c)
    ensures var m := MapData(p, b).value;
            WriteBlock(p, d, true, StoppedWrite(p, d, b), b, buf).disks ==
            if HasCell(d, m.member, c) && HasCell(d, m.parity, c)
            then Store(d, m.parity, c, XorBlock(XorBlock(d[m.parity][c], d[m.member][c]), buf)) else d
  {
    hide MapData, CellOf, XorBlock;
    var i, j := ParityOrdinals(p, b);
    var m := MapData(p, b).value;
    if HasCell(d, m.member, c) && HasCell(d, m.parity, c) {
      var half := Store(d, m.parity, c, XorBlock(XorBlock(d[m.parity][c], d[m.member][c]), buf));
      var disk: seq<Block> := d[m.member];
      assert disk[c := disk[c]] == disk && half[m.member] == disk;
      assert Store(half, m.member, c, disk[c]) == half;
    }
  }

  /** The parity cell of b's row is also a cell that a read of b' may use: byte
      offsets wrap at block 2^52. */
  predicate ParityAliased(p: Pool, b: nat, b': nat)
    requires Opened(p) && b >= DATA_START && MapData(p, b).Ok?
  {
    var m := MapData(p, b).value;
    HasPlace(p, b') && ReadsFrom(p, b', m.parity) && MemberBlock(p, b') % ADDRESSABLE == m.block % ADDRESSABLE
  }

  lemma UnwrappedParity(p: Pool, b: nat, b': nat)
    requires Opened(p) && p.profile == PROFILE_PARITY && b >= DATA_START && MapData(p, b).Ok? && Unwrapped(p, b) && Unwrapped(p, b')
    ensures !ParityAliased(p, b, b')
  {
    hide MapData;
    MappedInside(p, b);
    if ParityAliased(p, b, b') {
      if b' >= DATA_START {
        ParityApart(p, b, b');
      }
    }
  }

  /** Stopped half-way, no logical block has changed; and in a row that cancelled
      before, scrubbing the block finds it exactly when the row is incomplete or the
      write would have changed the data. */
  lemma HalfParityWriteSafe(p: Pool, d: Disks, b: nat, buf: Block, bad: set<(nat, nat)>, b': nat)
    requires Attached(p, d) && p.profile == PROFILE_PARITY && DATA_START <= b && MapData(p, b).Ok?
    requires CellOf(MapData(p, b).value.block).Ok?
    ensures var half := WriteBlock(p, d, true, StoppedWrite(p, d, b), b, buf).disks;
            var ms, c := DataMembers(p), CellOf(MapData(p, b).value.block).value;
            && (!ParityAliased(p, b, b') ==> ReadBlock(p, half, bad, b') == ReadBlock(p, d, bad, b'))
            && (RowXor(d, ms, c, |ms|) == ZeroBlock() ==>
                  ScrubOne(p, half, {}, b) ==
                  if !OnAll(d, ms, c) then Neg(EIO) else if ReadBlock(p, d, {}, b) == Ok(buf) then Zero else Neg(EILSEQ))
  {
    hide MapData, CellOf, RowXor, XorBlock, ZeroBlock, WriteBlock, ParityAliased;
    var i, j := ParityOrdinals(p, b);
    var ms := DataMembers(p);
    var m := MapData(p, b).value;
    var c := CellOf(m.block).value;
    StoppedWriteStores(p, d, b, c, buf);
    var half := WriteBlock(p, d, true, StoppedWrite(p, d, b), b, buf).disks;
    if HasCell(d, m.member, c) && HasCell(d, m.parity, c) {
      if !ParityAliased(p, b, b') {
        ParityCellUnread(p, d, b, c, half[m.parity][c], bad, b');
      }
      TwoStores(d, ms, c, i, j, buf);
      if RowXor(d, ms, c, |ms|) == ZeroBlock() {
        HalfRowScrub(p, half, b, c, d[m.member][c], buf);
      }
      assert OnAll(half, ms, c) <==> OnAll(d, ms, c);
    } else {
      IncompleteScrub(p, d, b, c);
    }
  }

  lemma IncompleteScrub(p: Pool, d: Disks, b: nat, c: nat)
    requires Attached(p, d) && p.profile == PROFILE_PARITY && DATA_START <= b && MapData(p, b).Ok?
    requires CellOf(MapData(p, b).value.block) == Ok(c) && !OnAll(d, DataMembers(p), c)
    ensures ScrubOne(p, d, {}, b) == Neg(EIO)
  {
    hide MapParity, CellOf, RowXor;
    ParityIsData(p, b);
    MemberLists(p);
    RowSumExact(p, d, DataMembers(p), MapData(p, b).value.block, c, |DataMembers(p)|);
  }

  lemma HalfRowScrub(p: Pool, half: Disks, b: nat, c: nat, oldData: Block, buf: Block)
    requires Attached(p, half) && p.profile == PROFILE_PARITY && DATA_START <= b && MapData(p, b).Ok?
    requires CellOf(MapData(p, b).value.block) == Ok(c)
    requires var ms := DataMembers(p); RowXor(half, ms, c, |ms|) == XorBlock(ZeroBlock(), XorBlock(oldData, buf))
    ensures ScrubOne(p, half, {}, b) ==
            if !OnAll(half, DataMembers(p), c) then Neg(EIO) else if oldData == buf then Zero else Neg(EILSEQ)
  {
    hide MapParity, CellOf, XorBlock, ZeroBlock, RowXor;
    XorBlockZero(XorBlock(oldData, buf));
    XorBlockCancels(oldData, buf);
    ParityIsData(p, b);
    MemberLists(p);
    RowSumExact(p, half, DataMembers(p), MapData(p, b).value.block, c, |DataMembers(p)|);
  }

  /** Storing into a row's parity cell changes no logical block. */
  lemma ParityCellUnread(p: Pool, d: Disks, b: nat, c: nat, v: Block, bad: set<(nat, nat)>, b': nat)
    requires Attached(p, d) && p.profile == PROFILE_PARITY && DATA_START <= b && MapData(p, b).Ok?
    requires !ParityAliased(p, b, b') && CellOf(MapData(p, b).value.block) == Ok(c)
    requires HasCell(d, MapData(p, b).value.parity, c)
    ensures ReadBlock(p, Store(d, MapData(p, b).value.parity, c, v), bad, b') == ReadBlock(p, d, bad, b')
  {
    hide MapData, CellOf, ReadBlock, BootstrapMembers;
    var m := MapData(p, b).value;
    var d' := Store(d, m.parity, c, v);
    CellOfExact(m.block);
    forall m': nat, c': nat | DependsOn(p, b', m', c') && m' < |d|
      ensures SameAt(d, d', m', c')
    {
      CellOfExact(MemberBlock(p, b'));
    }
    ReadFrame(p, d, d', bad, b');
  }

  /** The condition is exact: where the parity cell is aliased, a stopped write changes
      what the other block reads. */
  lemma StoppedWriteDisturbs(p: Pool, b: nat, b': nat) returns (buf: Block, bad: set<(nat, nat)>)
    requires Opened(p) && p.profile == PROFILE_PARITY && b >= DATA_START && MapData(p, b).Ok? && CellOf(MapData(p, b).value.block).Ok?
    requires ParityAliased(p, b, b')
    ensures var d := ZeroDisks(p, CellOf(MapData(p, b).value.block).value + 1);
            && ReadBlock(p, d, bad, b') == Ok(ZeroBlock()) && buf != ZeroBlock()
            && ReadBlock(p, WriteBlock(p, d, true, StoppedWrite(p, d, b), b, buf).disks, bad, b') == Ok(buf)
  {
    hide MapData, CellOf, WriteBlock, XorBlock, BootstrapMembers, ZeroBlock;
    var m := MapData(p, b).value;
    var c := CellOf(m.block).value;
    var d := ZeroDisks(p, c + 1);
    CellOfExact(m.block);
    CellOfExact(MemberBlock(p, b'));
    var i, j := ParityOrdinals(p, b);
    buf := seq(4096, _ => 1);
    BlockOfOnes(buf);
    StoppedWriteStores(p, d, b, c, buf);
    XorBlockZero(ZeroBlock());
    XorBlockZero(buf);
    var d' := WriteBlock(p, d, true, StoppedWrite(p, d, b), b, buf).disks;
    bad := OthersBad(p, m.parity, c);
    OnlyReads(p, d, bad, b', m.parity, c);
    OnlyReads(p, d', bad, b', m.parity, c);
  }

  lemma BlockOfOnes(buf: Block)
    requires buf == seq(4096, _ => 1)
    ensures buf != ZeroBlock()
  {
    assert buf[0] != ZeroBlock()[0];
  }

  // ------------------------------------------------------------------- whole-run law

  /** Bootstrap replicas agree, mirrors agree, parity rows cancel. */
  ghost predicate Redundant(p: Pool, d: Disks)
    requires Opened(p)
  {
    && (forall b :: SUPER_BLOCK <= b < DATA_START ==> Agree(d, BootstrapMembers(p, b), b))
    && (forall c: nat :: c >= DATA_START ==> CleanRow(p, d, c))
  }

  /** Row c, wherever it exists on all data members, is clean. */
  ghost predicate CleanRow(p: Pool, d: Disks, c: nat)
    requires Opened(p)
  {
    var ms := DataMembers(p);
    OnAll(d, ms, c) ==>
      && (p.profile == PROFILE_MIRROR ==> Agree(d, ms, c))
      && (p.profile == PROFILE_PARITY ==> RowXor(d, ms, c, |ms|) == ZeroBlock())
  }

  /** The byte offset of a data block does not wrap into the bootstrap area. */
  predicate OffBootstrap(p: Pool, b: nat)
    requires Opened(p)
  {
    b >= DATA_START && MapData(p, b).Ok? ==> MapData(p, b).value.block % ADDRESSABLE >= DATA_START
  }

  lemma UnwrappedOffBootstrap(p: Pool, b: nat)
    requires Opened(p) && Unwrapped(p, b)
    ensures OffBootstrap(p, b)
  {
    hide MapData;
    if b >= DATA_START && MapData(p, b).Ok? {
      MappedInside(p, b);
    }
  }

  lemma {:induction false} RowXorFrame(d: Disks, d': Disks, ms: seq<nat>, c: nat, k: nat)
    requires k <= |ms| && forall i :: 0 <= i < |ms| ==> ms[i] < |d| && SameAt(d, d', ms[i], c)
    ensures RowXor(d', ms, c, k) == RowXor(d, ms, c, k)
    decreases k
  {
    hide XorBlock;
    if k != 0 {
      RowXorFrame(d, d', ms, c, k - 1);
    }
  }

  /** The byte offset of data block b wraps to a bootstrap block, and a write of b
      reaches some of its replicas and not others. */
  predicate SplitsReplicas(p: Pool, b: nat)
    requires Opened(p)
  {
    && b >= DATA_START && MapData(p, b).Ok?
    && var c := MapData(p, b).value.block % ADDRESSABLE;
       && SUPER_BLOCK <= c < DATA_START
       && var ms := BootstrapMembers(p, c);
          exists i, j :: 0 <= i < |ms| && 0 <= j < |ms| && WritesTo(p, b, ms[i]) && !WritesTo(p, b, ms[j])
  }

  lemma UnwrappedSplitsNone(p: Pool, b: nat)
    requires Opened(p) && Unwrapped(p, b)
    ensures !SplitsReplicas(p, b)
  {
    hide MapData;
    UnwrappedOffBootstrap(p, b);
  }

  /** A completed write keeps the replicas of every bootstrap block in agreement. */
  lemma WriteKeepsReplicas(p: Pool, d: Disks, io: Faults, b: nat, buf: Block, b': nat)
    requires Attached(p, d) && !SplitsReplicas(p, b) && WriteBlock(p, d, true, io, b, buf).rc.Zero?
    requires SUPER_BLOCK <= b' < DATA_START && Agree(d, BootstrapMembers(p, b'), b')
    ensures Agree(WriteBlock(p, d, true, io, b, buf).disks, BootstrapMembers(p, b'), b')
  {
    hide MapData, CellOf, WriteBlock, BootstrapMembers, SplitsReplicas, Touches;
    var ms := BootstrapMembers(p, b');
    var d' := WriteBlock(p, d, true, io, b, buf).disks;
    BootstrapInside(p, b');
    WriteKeepsSizes(p, d, true, io, b, buf);
    forall i, j | 0 <= i < |ms| && 0 <= j < |ms|
      ensures d'[ms[i]][b'] == d'[ms[j]][b']
    {
      TouchesAlike(p, b, b', i, j);
      if Touches(p, b, ms[i], b') {
        WrittenAlike(p, d, io, b, buf, ms[i], ms[j], b');
      } else {
        WriteFrame(p, d, true, io, b, buf, ms[i], b');
        WriteFrame(p, d, true, io, b, buf, ms[j], b');
      }
    }
  }

  lemma BootstrapInside(p: Pool, b: nat)
    requires Opened(p)
    ensures forall i :: 0 <= i < |BootstrapMembers(p, b)| ==> BootstrapMembers(p, b)[i] < p.memberCount
  {
    hide DataMembers, MetadataMembers, LogMembers;
    MemberLists(p);
  }

  /** Such a write touches all replicas of a bootstrap block or none. */
  lemma TouchesAlike(p: Pool, b: nat, b': nat, i: nat, j: nat)
    requires Opened(p) && !SplitsReplicas(p, b) && SUPER_BLOCK <= b' < DATA_START
    requires i < |BootstrapMembers(p, b')| && j < |BootstrapMembers(p, b')|
    ensures Touches(p, b, BootstrapMembers(p, b')[i], b') <==> Touches(p, b, BootstrapMembers(p, b')[j], b')
  {
    hide MapData, CellOf, BootstrapMembers, DataMembers;
    if HasPlace(p, b) {
      CellOfExact(MemberBlock(p, b));
    }
  }

  /** A completed write of cells that were equal leaves them equal: parity over equal
      old contents is the new contents. */
  lemma WrittenAlike(p: Pool, d: Disks, io: Faults, b: nat, buf: Block, m: nat, m': nat, c: nat)
    requires Attached(p, d) && WriteBlock(p, d, true, io, b, buf).rc.Zero?
    requires Touches(p, b, m, c) && Touches(p, b, m', c) && HasCell(d, m, c) && HasCell(d, m', c) && d[m][c] == d[m'][c]
    ensures var d' := WriteBlock(p, d, true, io, b, buf).disks;
            HasCell(d', m, c) && HasCell(d', m', c) && d'[m][c] == d'[m'][c]
  {
    hide MapData, CellOf, BootstrapMembers, DataMembers, MemberWrite, WriteReplicas, WriteParity, XorBlock;
    WriteKeepsSizes(p, d, true, io, b, buf);
    if m != m' {
      if b < DATA_START {
        WriteHolds(p, d, true, io, b, buf, m, c);
        WriteHolds(p, d, true, io, b, buf, m', c);
      } else if p.profile == PROFILE_MIRROR {
        MirrorHolds(p, d, io, b, buf, m, c);
        MirrorHolds(p, d, io, b, buf, m', c);
      } else {
        ParityApart(p, b, b);
        EqualParityHolds(p, d, io, MapData(p, b).value, buf, c);
      }
    }
  }

  lemma MirrorHolds(p: Pool, d: Disks, io: Faults, b: nat, buf: Block, m: nat, c: nat)
    requires Attached(p, d) && p.profile == PROFILE_MIRROR && b >= DATA_START && WriteBlock(p, d, true, io, b, buf).rc.Zero?
    requires Touches(p, b, m, c)
    ensures CellHolds(WriteBlock(p, d, true, io, b, buf).disks, m, c, buf)
  {
    hide MapData, CellOf;
    MemberLists(p);
    var i :| 0 <= i < |DataMembers(p)| && DataMembers(p)[i] == m;
    WriteReplicasHold(p, d, io.torn, DataMembers(p), 0, MapData(p, b).value.block, buf, i);
  }

  lemma EqualParityHolds(p: Pool, d: Disks, io: Faults, m: Mapping, buf: Block, c: nat)
    requires Attached(p, d) && CellOf(m.block) == Ok(c) && WriteParity(p, d, io, m, buf).rc.Zero? && m.member != m.parity
    requires HasCell(d, m.member, c) && HasCell(d, m.parity, c) && d[m.member][c] == d[m.parity][c]
    ensures var d' := WriteParity(p, d, io, m, buf).disks; CellHolds(d', m.member, c, buf) && CellHolds(d', m.parity, c, buf)
  {
    hide CellOf, XorBlock;
    XorBlockCancels(d[m.parity][c], d[m.parity][c]);
    XorBlockZero(buf);
  }

  /** The row a completed data write goes to. */
  ghost predicate WritesRow(p: Pool, b: nat, c: nat)
    requires Opened(p)
  {
    b >= DATA_START && MapData(p, b).Ok? && CellOf(MapData(p, b).value.block) == Ok(c)
  }

  /** A completed write keeps every row clean. */
  lemma WriteKeepsRow(p: Pool, d: Disks, io: Faults, b: nat, buf: Block, c: nat)
    requires Attached(p, d) && WriteBlock(p, d, true, io, b, buf).rc.Zero?
    requires c >= DATA_START && CleanRow(p, d, c)
    ensures CleanRow(p, WriteBlock(p, d, true, io, b, buf).disks, c)
  {
    hide MapData, WriteBlock, RowXor, CellOf;
    MemberLists(p);
    var ms := DataMembers(p);
    var d' := WriteBlock(p, d, true, io, b, buf).disks;
    WriteKeepsSizes(p, d, true, io, b, buf);
    if OnAll(d', ms, c) {
      assert OnAll(d, ms, c);
      if WritesRow(p, b, c) {
        WriteKeepsOwnRow(p, d, io, b, buf, c);
      } else {
        WriteKeepsOtherRow(p, d, io, b, buf, c);
      }
    }
  }

  lemma WriteKeepsOwnRow(p: Pool, d: Disks, io: Faults, b: nat, buf: Block, c: nat)
    requires Attached(p, d) && WriteBlock(p, d, true, io, b, buf).rc.Zero?
    requires WritesRow(p, b, c) && CleanRow(p, d, c) && OnAll(d, DataMembers(p), c)
    ensures CleanRow(p, WriteBlock(p, d, true, io, b, buf).disks, c)
  {
    hide MapData, RowXor, CellOf;
    var ms := DataMembers(p);
    MemberLists(p);
    if p.profile == PROFILE_MIRROR {
      forall i | 0 <= i < |ms|
        ensures CellHolds(WriteBlock(p, d, true, io, b, buf).disks, ms[i], c, buf)
      {
        WriteReplicasHold(p, d, io.torn, ms, 0, MapData(p, b).value.block, buf, i);
      }
    } else if p.profile == PROFILE_PARITY {
      ParityWriteConserves(p, d, io, b, buf);
    }
  }

  lemma WriteKeepsOtherRow(p: Pool, d: Disks, io: Faults, b: nat, buf: Block, c: nat)
    requires Attached(p, d) && c >= DATA_START && CleanRow(p, d, c)
    requires OnAll(d, DataMembers(p), c) && !WritesRow(p, b, c)
    ensures CleanRow(p, WriteBlock(p, d, true, io, b, buf).disks, c)
  {
    hide MapData, CellOf, WriteBlock, RowXor;
    MemberLists(p);
    var ms := DataMembers(p);
    var d' := WriteBlock(p, d, true, io, b, buf).disks;
    CellOfExact(b);
    forall i | 0 <= i < |ms|
      ensures SameAt(d, d', ms[i], c)
    {
      WriteFrame(p, d, true, io, b, buf, ms[i], c);
    }
    RowXorFrame(d, d', ms, c, |ms|);
  }

  lemma WriteKeepsSizes(p: Pool, d: Disks, writable: bool, io: Faults, b: nat, buf: Block)
    requires Attached(p, d)
    ensures forall m :: 0 <= m < |d| ==> |WriteBlock(p, d, writable, io, b, buf).disks[m]| == |d[m]|
  {
    forall m | 0 <= m < |d|
      ensures |WriteBlock(p, d, writable, io, b, buf).disks[m]| == |d[m]|
    {
      WriteKeepsSize(p, d, writable, io, b, buf, m);
    }
  }

  lemma {:induction false} WriteReplicasSizes(p: Pool, d: Disks, torn: map<(nat, nat), Block>, ms: seq<nat>, k: nat, mb: nat, buf: Block, m: nat)
    requires Attached(p, d) && k <= |ms| && m < |d|
    ensures |WriteReplicas(p, d, torn, ms, k, mb, buf).disks[m]| == |d[m]|
    decreases |ms| - k
  {
    hide CellOf, MemberWrite;
    if k < |ms| {
      var w := MemberWrite(p, d, torn, ms[k], mb, buf);
      MemberWriteSizes(p, d, torn, ms[k], mb, buf, m);
      WriteReplicasSizes(p, w.disks, torn, ms, k + 1, mb, buf, m);
    }
  }

  lemma WriteKeepsSize(p: Pool, d: Disks, writable: bool, io: Faults, b: nat, buf: Block, m: nat)
    requires Attached(p, d) && m < |d|
    ensures |WriteBlock(p, d, writable, io, b, buf).disks[m]| == |d[m]|
  {
    hide MapData, CellOf, MemberWrite, WriteParity;
    if b < DATA_START {
      WriteReplicasSizes(p, d, io.torn, BootstrapMembers(p, b), 0, b, buf, m);
    } else if MapData(p, b).Ok? {
      var mp := MapData(p, b).value;
      WriteReplicasSizes(p, d, io.torn, DataMembers(p), 0, mp.block, buf, m);
      MemberWriteSizes(p, d, io.torn, mp.member, mp.block, buf, m);
      WriteParitySizes(p, d, io, mp, buf, m);
    }
  }

  lemma MemberWriteSizes(p: Pool, d: Disks, torn: map<(nat, nat), Block>, m: nat, mb: nat, buf: Block, m': nat)
    requires Attached(p, d) && m' < |d|
    ensures |MemberWrite(p, d, torn, m, mb, buf).disks[m']| == |d[m']|
  {
    hide CellOf;
  }

  lemma WriteParitySizes(p: Pool, d: Disks, io: Faults, m: Mapping, buf: Block, m': nat)
    requires Attached(p, d) && m' < |d|
    ensures |WriteParity(p, d, io, m, buf).disks[m']| == |d[m']|
  {
    hide CellOf, XorBlock, MemberWrite;
    var oldData := MemberRead(p, d, io.bad, m.member, m.block);
    var oldParity := MemberRead(p, d, io.bad, m.parity, m.block);
    if oldData.Ok? && oldParity.Ok? {
      var newParity := XorBlock(XorBlock(oldParity.value, oldData.value), buf);
      MemberWriteSizes(p, d, io.torn, m.parity, m.block, newParity, m');
      var w := MemberWrite(p, d, io.torn, m.parity, m.block, newParity);
      MemberWriteSizes(p, w.disks, io.torn, m.member, m.block, buf, m');
    }
  }

  /** One completed write keeps replicas equal and rows cancelled. */
  lemma WriteKeepsRedundancy(p: Pool, d: Disks, io: Faults, b: nat, buf: Block)
    requires Attached(p, d) && !SplitsReplicas(p, b) && WriteBlock(p, d, true, io, b, buf).rc.Zero?
    requires Redundant(p, d)
    ensures Redundant(p, WriteBlock(p, d, true, io, b, buf).disks)
  {
    hide WriteBlock, SplitsReplicas, Agree, CleanRow;
    var d' := WriteBlock(p, d, true, io, b, buf).disks;
    forall b' | SUPER_BLOCK <= b' < DATA_START
      ensures Agree(d', BootstrapMembers(p, b'), b')
    {
      WriteKeepsReplicas(p, d, io, b, buf, b');
    }
    forall c: nat | c >= DATA_START
      ensures CleanRow(p, d', c)
    {
      WriteKeepsRow(p, d, io, b, buf, c);
    }
  }

  /** Every run of completed writes keeps replicas equal and rows cancelled, and
      members as large as they were. */
  lemma {:induction false} RunKeepsRedundancy(p: Pool, d: Disks, ops: seq<Op>)
    requires Attached(p, d) && Redundant(p, d) && Completes(p, d, ops)
    requires forall i :: 0 <= i < |ops| ==> !SplitsReplicas(p, ops[i].block)
    ensures Redundant(p, Run(p, d, ops))
    ensures forall m :: 0 <= m < |d| ==> |Run(p, d, ops)[m]| == |d[m]|
    decreases |ops|
  {
    hide WriteBlock, SplitsReplicas, Redundant, Attached;
    if ops != [] {
      var n := |ops| - 1;
      var last := ops[n];
      CompletesPrefix(p, d, ops, n);
      RunKeepsRedundancy(p, d, ops[..n]);
      WriteKeepsRedundancy(p, Run(p, d, ops[..n]), last.io, last.block, last.buf);
      WriteKeepsSizes(p, Run(p, d, ops[..n]), true, last.io, last.block, last.buf);
      AttachedSizes(p, d, Run(p, d, ops[..n]));
    }
  }

  lemma AttachedSizes(p: Pool, d: Disks, d': Disks)
    requires Attached(p, d) && Attached(p, d')
    ensures |d| == |d'|
  {
  }
}
