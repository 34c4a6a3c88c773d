/** The redundancy scrub, exactly: what it accepts, that completed writes keep it
    accepted, and that it finds every changed cell. */
module ScrubLaws {
  import opened Bytes
  import opened Masks
  import opened Geometry
  import opened PoolMap
  import opened PoolBlocks
  import opened PoolRefinement
  import opened Intervals
  import opened Redundancy

  // ------------------------------------------------------------------- block by block

  /** Block b belongs to an interval of the data area. */
  predicate InUse(used: seq<Interval>, k: nat, b: nat)
    requires k < |used|
  {
    DATA_START <= used[k].start <= b < used[k].start + used[k].len
  }

  /** Every used block passes, from interval `from` on. */
  ghost predicate AllPass(p: Pool, d: Disks, bad: set<(nat, nat)>, used: seq<Interval>, from: nat)
    requires Attached(p, d)
  {
    forall k: nat, b: nat :: from <= k < |used| && InUse(used, k, b) ==> ScrubOne(p, d, bad, b).Zero?
  }

  /** Mirror over at least two members or parity over at least three: the profiles
      whose data blocks are scrubbed. */
  predicate Scrubbed(p: Pool) {
    || (p.profile == PROFILE_MIRROR && |DataMembers(p)| >= 2)
    || (p.profile == PROFILE_PARITY && |DataMembers(p)| >= 3)
  }

  lemma {:induction false} SpanParts(p: Pool, d: Disks, bad: set<(nat, nat)>, x: Interval, off: nat)
    requires Attached(p, d) && off <= x.len && x.start >= DATA_START
    ensures ScrubSpan(p, d, bad, x, off).Zero? <==> forall b :: x.start + off <= b < x.start + x.len ==> ScrubOne(p, d, bad, b).Zero?
    decreases x.len - off
  {
    hide ScrubOne;
    if off < x.len {
      SpanParts(p, d, bad, x, off + 1);
    }
  }

  lemma {:induction false} ListParts(p: Pool, d: Disks, bad: set<(nat, nat)>, used: seq<Interval>, i: nat)
    requires Attached(p, d) && i <= |used|
    ensures ScrubList(p, d, bad, used, i).Zero? <==> AllPass(p, d, bad, used, i)
    decreases |used| - i
  {
    hide ScrubSpan, ScrubOne;
    if i < |used| {
      ListParts(p, d, bad, used, i + 1);
      if used[i].start >= DATA_START {
        SpanParts(p, d, bad, used[i], 0);
      }
      AllPassStep(p, d, bad, used, i);
    }
  }

  lemma AllPassStep(p: Pool, d: Disks, bad: set<(nat, nat)>, used: seq<Interval>, i: nat)
    requires Attached(p, d) && i < |used|
    ensures AllPass(p, d, bad, used, i) <==>
            && AllPass(p, d, bad, used, i + 1)
            && (used[i].start >= DATA_START ==>
                  forall b :: used[i].start <= b < used[i].start + used[i].len ==> ScrubOne(p, d, bad, b).Zero?)
  {
    hide ScrubOne;
    if AllPass(p, d, bad, used, i) && used[i].start >= DATA_START {
      forall b | used[i].start <= b < used[i].start + used[i].len
        ensures ScrubOne(p, d, bad, b).Zero?
      {
        assert InUse(used, i, b);
      }
    }
  }

  lemma {:induction false} BootstrapParts(p: Pool, d: Disks, bad: set<(nat, nat)>, b: nat)
    requires Attached(p, d) && b <= DATA_START
    ensures ScrubBootstrap(p, d, bad, b).Zero? <==>
            forall c :: b <= c < DATA_START ==> ScrubReplicas(p, d, bad, BootstrapMembers(p, c), c).Zero?
    decreases DATA_START - b
  {
    hide ScrubReplicas, BootstrapMembers;
    if b < DATA_START {
      BootstrapParts(p, d, bad, b + 1);
    }
  }

  /** The scrub accepts exactly when every block of the bootstrap area and every used
      block passes, and parity has three data members. */
  lemma ScrubParts(p: Pool, d: Disks, bad: set<(nat, nat)>, used: seq<Interval>)
    requires Attached(p, d)
    ensures Scrub(p, d, bad, used).Zero? <==>
            && (forall c :: SUPER_BLOCK <= c < DATA_START ==> ScrubReplicas(p, d, bad, BootstrapMembers(p, c), c).Zero?)
            && (p.profile == PROFILE_PARITY ==> |DataMembers(p)| >= 3)
            && (Scrubbed(p) ==> AllPass(p, d, bad, used, 0))
  {
    hide ScrubReplicas, BootstrapMembers, ScrubBootstrap, ScrubList, AllPass, DataMembers;
    BootstrapParts(p, d, bad, SUPER_BLOCK);
    ListParts(p, d, bad, used, 0);
  }

  /** Block b is mapped, to a row that exists on all data members. */
  ghost predicate RowExists(p: Pool, d: Disks, b: nat)
    requires Opened(p) && b >= DATA_START
  {
    && MapData(p, b).Ok? && CellOf(MapData(p, b).value.block).Ok?
    && OnAll(d, DataMembers(p), CellOf(MapData(p, b).value.block).value)
  }

  /** A used block passes exactly when its row exists on all data members and is clean. */
  lemma ScrubOneExact(p: Pool, d: Disks, b: nat)
    requires Attached(p, d) && Scrubbed(p) && b >= DATA_START
    ensures ScrubOne(p, d, {}, b).Zero? <==> RowExists(p, d, b) && CleanRow(p, d, CellOf(MapData(p, b).value.block).value)
  {
    hide CellOf, RowXor, MapParity;
    MemberLists(p);
    if p.profile == PROFILE_MIRROR {
      ScrubReplicasExact(p, d, DataMembers(p), b);
    } else {
      ParityIsData(p, b);
      ScrubRowExact(p, d, b);
    }
  }

  // ---------------------------------------------------------------- the scrub, exactly

  /** What decides about a used block of a redundant pool: its row must exist on all
      data members. If its byte offset wraps into the bootstrap area, that row is not a
      data row, and must happen to be clean. */
  ghost predicate Scrubbable(p: Pool, d: Disks, b: nat)
    requires Opened(p) && b >= DATA_START
  {
    RowExists(p, d, b) && (!OffBootstrap(p, b) ==> CleanRow(p, d, CellOf(MapData(p, b).value.block).value))
  }

  /** What the scrub of a redundant pool decides: a parity pool needs three data
      members, and every used block must be mapped to a row that exists on all data
      members. */
  ghost predicate Passes(p: Pool, d: Disks, used: seq<Interval>)
    requires Opened(p)
  {
    && (p.profile == PROFILE_PARITY ==> |DataMembers(p)| >= 3)
    && (Scrubbed(p) ==> forall k: nat, b: nat :: k < |used| && InUse(used, k, b) ==> Scrubbable(p, d, b))
  }

  lemma RedundantOne(p: Pool, d: Disks, b: nat)
    requires Attached(p, d) && Redundant(p, d) && Scrubbed(p) && b >= DATA_START
    ensures ScrubOne(p, d, {}, b).Zero? <==> Scrubbable(p, d, b)
  {
    hide CellOf, CleanRow, ScrubOne, MapData, Scrubbed;
    ScrubOneExact(p, d, b);
    if RowExists(p, d, b) {
      CellOfExact(MapData(p, b).value.block);
    }
  }

  lemma BootstrapClean(p: Pool, d: Disks, b: nat)
    requires Attached(p, d) && Redundant(p, d) && SUPER_BLOCK <= b < DATA_START
    ensures ScrubReplicas(p, d, {}, BootstrapMembers(p, b), b).Zero?
  {
    hide DataMembers, MetadataMembers, LogMembers, CleanRow;
    MemberLists(p);
    CellOfExact(b);
    if |BootstrapMembers(p, b)| >= 2 {
      hide ScrubReplicas;
      assert Agree(d, BootstrapMembers(p, b), b);
      ScrubReplicasExact(p, d, BootstrapMembers(p, b), b);
    }
  }

  /** The scrub accepts a redundant pool exactly when no used block has an
      incomplete row. */
  lemma ScrubExact(p: Pool, d: Disks, used: seq<Interval>)
    requires Attached(p, d) && Redundant(p, d)
    ensures Scrub(p, d, {}, used).Zero? <==> Passes(p, d, used)
  {
    hide Scrub, ScrubOne, ScrubReplicas, Scrubbable, Redundant, Scrubbed, BootstrapMembers, DataMembers;
    ScrubParts(p, d, {}, used);
    forall b | SUPER_BLOCK <= b < DATA_START
      ensures ScrubReplicas(p, d, {}, BootstrapMembers(p, b), b).Zero?
    {
      BootstrapClean(p, d, b);
    }
    if Scrubbed(p) {
      forall b | b >= DATA_START
        ensures ScrubOne(p, d, {}, b).Zero? <==> Scrubbable(p, d, b)
      {
        RedundantOne(p, d, b);
      }
    }
  }

  /** No used block wraps into the bootstrap area. */
  ghost predicate AllOffBootstrap(p: Pool, used: seq<Interval>)
    requires Opened(p)
  {
    forall k: nat, b: nat :: k < |used| && InUse(used, k, b) ==> OffBootstrap(p, b)
  }

  lemma SameSizesPass(p: Pool, d: Disks, d': Disks, used: seq<Interval>)
    requires Opened(p) && AllOffBootstrap(p, used) && |d| == |d'| && forall m :: 0 <= m < |d| ==> |d[m]| == |d'[m]|
    ensures Passes(p, d, used) <==> Passes(p, d', used)
  {
    hide MapData, CellOf, DataMembers, Scrubbed, OffBootstrap, CleanRow;
    forall b | b >= DATA_START && OffBootstrap(p, b)
      ensures Scrubbable(p, d, b) <==> Scrubbable(p, d', b)
    {
    }
  }

  /** Over every run of completed writes from a redundant pool the scrub accepts
      exactly when no used block has an incomplete row; that depends only on the sizes
      of the members, unless a used block wraps into the bootstrap area. */
  lemma ScrubAfterRunExact(p: Pool, d: Disks, ops: seq<Op>, used: seq<Interval>)
    requires Attached(p, d) && Redundant(p, d) && Completes(p, d, ops)
    requires forall i :: 0 <= i < |ops| ==> !SplitsReplicas(p, ops[i].block)
    ensures Scrub(p, Run(p, d, ops), {}, used).Zero? <==> Passes(p, Run(p, d, ops), used)
    ensures AllOffBootstrap(p, used) ==> (Passes(p, Run(p, d, ops), used) <==> Passes(p, d, used))
  {
    hide Redundant, Scrub, Passes, AllOffBootstrap, SplitsReplicas, PoolMap.Opened;
    RunKeepsRedundancy(p, d, ops);
    AttachedSizes(p, d, Run(p, d, ops));
    ScrubExact(p, Run(p, d, ops), used);
    if AllOffBootstrap(p, used) {
      SameSizesPass(p, d, Run(p, d, ops), used);
    }
  }

  /** All data members have the same number of data blocks, on devices that hold
      them. */
  ghost predicate Even(p: Pool, d: Disks, size: nat)
    requires Opened(p)
  {
    && DATA_START <= size <= ADDRESSABLE / 2
    && var ms := DataMembers(p);
       forall i :: 0 <= i < |ms| ==> ms[i] < |p.members| && ms[i] < |d| && DATA_START + DataBlocks(p, ms[i]) == size <= |d[ms[i]]|
  }

  /** On such members the scrub passes every list of mapped used blocks (in a mirror,
      of blocks the members hold). */
  lemma EvenMembersPass(p: Pool, d: Disks, used: seq<Interval>, size: nat)
    requires Attached(p, d) && Even(p, d, size) && (p.profile == PROFILE_PARITY ==> |DataMembers(p)| >= 3)
    requires forall k: nat, b: nat :: k < |used| && InUse(used, k, b) ==> MapData(p, b).Ok? && (p.profile == PROFILE_MIRROR ==> b < size)
    ensures Passes(p, d, used) && AllOffBootstrap(p, used)
  {
    hide MapData, CellOf, DataBlocks;
    MemberLists(p);
    forall k: nat, b: nat | k < |used| && InUse(used, k, b)
      ensures Scrubbable(p, d, b) && OffBootstrap(p, b)
    {
      MappedInside(p, b);
      MirrorBlock(p, b);
      CellOfExact(MapData(p, b).value.block);
    }
  }

  lemma MirrorBlock(p: Pool, b: nat)
    requires Opened(p) && b >= DATA_START && MapData(p, b).Ok?
    ensures p.profile == PROFILE_MIRROR ==> MapData(p, b).value.block == b
  {
  }

  // ----------------------------------------------------------- every change is found

  lemma StoreUnclean(p: Pool, d: Disks, i: nat, c: nat, v: Block)
    requires Attached(p, d) && Scrubbed(p) && i < |DataMembers(p)| && OnAll(d, DataMembers(p), c) && CleanRow(p, d, c)
    requires v != d[DataMembers(p)[i]][c]
    ensures !CleanRow(p, Store(d, DataMembers(p)[i], c, v), c)
  {
    hide RowXor, XorBlock;
    MemberLists(p);
    var ms := DataMembers(p);
    var d' := Store(d, ms[i], c, v);
    assert OnAll(d', ms, c);
    if p.profile == PROFILE_MIRROR {
      var j := if i == 0 then 1 else 0;
      assert d'[ms[i]][c] != d'[ms[j]][c];
    } else {
      RowXorStore(d, ms, c, |ms|, i, v);
      XorBlockZero(XorBlock(d[ms[i]][c], v));
      XorBlockCancels(d[ms[i]][c], v);
    }
  }

  /** Where a used block passed, changing its row's cell on any one data member, the
      parity included, makes it fail. */
  lemma ChangedRowFound(p: Pool, d: Disks, b: nat, i: nat, v: Block)
    requires Attached(p, d) && Scrubbed(p) && b >= DATA_START && i < |DataMembers(p)| && ScrubOne(p, d, {}, b).Zero?
    ensures RowExists(p, d, b)
    ensures var m, c := DataMembers(p)[i], CellOf(MapData(p, b).value.block).value;
            v != d[m][c] ==> ScrubOne(p, Store(d, m, c, v), {}, b).Neg?
  {
    hide CellOf, CleanRow, ScrubOne, MapData, Scrubbed;
    ScrubOneExact(p, d, b);
    var m, c := DataMembers(p)[i], CellOf(MapData(p, b).value.block).value;
    if v != d[m][c] {
      StoreUnclean(p, d, i, c, v);
      ScrubOneExact(p, Store(d, m, c, v), b);
    }
  }

  /** Where the scrub accepted a pool, it rejects it after any change of one cell of a
      used block's row or of one replica of a bootstrap block that has several. */
  lemma ChangeFound(p: Pool, d: Disks, used: seq<Interval>, k: nat, b: nat, i: nat, v: Block)
    requires Attached(p, d) && Scrub(p, d, {}, used).Zero?
    ensures Scrubbed(p) && k < |used| && InUse(used, k, b) && i < |DataMembers(p)| ==>
              && RowExists(p, d, b)
              && var m, c := DataMembers(p)[i], CellOf(MapData(p, b).value.block).value;
                 v != d[m][c] ==> Scrub(p, Store(d, m, c, v), {}, used).Neg?
    ensures SUPER_BLOCK <= b < DATA_START && |BootstrapMembers(p, b)| >= 2 && i < |BootstrapMembers(p, b)| ==>
              && OnAll(d, BootstrapMembers(p, b), b)
              && var m := BootstrapMembers(p, b)[i];
                 v != d[m][b] ==> Scrub(p, Store(d, m, b, v), {}, used).Neg?
  {
    hide Scrub, ScrubOne, ScrubReplicas, Scrubbed, BootstrapMembers, DataMembers, CellOf, MapData;
    ScrubParts(p, d, {}, used);
    if Scrubbed(p) && k < |used| && InUse(used, k, b) && i < |DataMembers(p)| {
      ChangedRowFound(p, d, b, i, v);
      ScrubParts(p, Store(d, DataMembers(p)[i], CellOf(MapData(p, b).value.block).value, v), {}, used);
    }
    if SUPER_BLOCK <= b < DATA_START && |BootstrapMembers(p, b)| >= 2 && i < |BootstrapMembers(p, b)| {
      ChangedReplicaFound(p, d, b, i, v);
      ScrubParts(p, Store(d, BootstrapMembers(p, b)[i], b, v), {}, used);
    }
  }

  lemma ChangedReplicaFound(p: Pool, d: Disks, b: nat, i: nat, v: Block)
    requires Attached(p, d) && SUPER_BLOCK <= b < DATA_START && |BootstrapMembers(p, b)| >= 2 && i < |BootstrapMembers(p, b)|
    requires ScrubReplicas(p, d, {}, BootstrapMembers(p, b), b).Zero?
    ensures OnAll(d, BootstrapMembers(p, b), b)
    ensures var m := BootstrapMembers(p, b)[i];
            v != d[m][b] ==> ScrubReplicas(p, Store(d, m, b, v), {}, BootstrapMembers(p, b), b).Neg?
  {
    hide ScrubReplicas, DataMembers, MetadataMembers, LogMembers, CellOf;
    MemberLists(p);
    CellOfExact(b);
    var ms := BootstrapMembers(p, b);
    ScrubReplicasExact(p, d, ms, b);
    var d' := Store(d, ms[i], b, v);
    var j := if i == 0 then 1 else 0;
    assert d'[ms[j]][b] == d[ms[i]][b];
    ScrubReplicasExact(p, d', ms, b);
  }

  // ------------------------------------------------------------------------ split replicas

  /** The condition is exact: a faultless write that splits replicas makes a redundant
      pool of zero blocks fail its scrub. */
  lemma SplitBreaks(p: Pool, b: nat) returns (buf: Block)
    requires Opened(p) && SplitsReplicas(p, b)
    ensures var d := ZeroDisks(p, DATA_START); var w := WriteBlock(p, d, true, Faults({}, map[]), b, buf);
            Redundant(p, d) && w.rc.Zero? && !Redundant(p, w.disks) && Scrub(p, w.disks, {}, []).Neg?
  {
    hide MapData, CellOf, WriteBlock, BootstrapMembers, DataMembers, CleanRow, Scrub;
    var d := ZeroDisks(p, DATA_START);
    var c := MapData(p, b).value.block % ADDRESSABLE;
    var ms := BootstrapMembers(p, c);
    var i, j :| 0 <= i < |ms| && 0 <= j < |ms| && WritesTo(p, b, ms[i]) && !WritesTo(p, b, ms[j]);
    CellOfExact(MapData(p, b).value.block);
    buf := seq(4096, _ => 1);
    assert buf[0] != ZeroBlock()[0];
    ZeroRedundant(p);
    BootstrapInside(p, c);
    ZeroWriteHolds(p, DATA_START, b, c, buf, ms[i]);
    WriteFrame(p, d, true, Faults({}, map[]), b, buf, ms[j], c);
    WriteKeepsSizes(p, d, true, Faults({}, map[]), b, buf);
    DisagreementFails(p, WriteBlock(p, d, true, Faults({}, map[]), b, buf).disks, c);
  }

  lemma ZeroRedundant(p: Pool)
    requires Opened(p)
    ensures Redundant(p, ZeroDisks(p, DATA_START))
  {
    hide DataMembers, MetadataMembers, LogMembers, RowXor;
    MemberLists(p);
    var d := ZeroDisks(p, DATA_START);
    forall c: nat | c >= DATA_START
      ensures CleanRow(p, d, c)
    {
      assert DataMembers(p)[0] < |d| && !(c < |d[DataMembers(p)[0]]|);
    }
  }

  lemma DisagreementFails(p: Pool, d: Disks, c: nat)
    requires Attached(p, d) && SUPER_BLOCK <= c < DATA_START && !Agree(d, BootstrapMembers(p, c), c)
    requires OnAll(d, BootstrapMembers(p, c), c)
    ensures Scrub(p, d, {}, []).Neg?
  {
    hide CellOf, DataMembers, MetadataMembers, LogMembers, ScrubReplicas, Scrub;
    MemberLists(p);
    CellOfExact(c);
    ScrubReplicasExact(p, d, BootstrapMembers(p, c), c);
    ScrubParts(p, d, {}, []);
  }

  /** A mirror over two members whose data is kept on the first only. */
  function SplitPool(): Pool {
    var one: Mask := seq(32, i requires 0 <= i < 32 => i < 1);
    var both: Mask := seq(32, i requires 0 <= i < 32 => i < 2);
    Pool(PROFILE_MIRROR, 2, 1, both, one, both,
         seq(8, i requires 0 <= i < 8 => if i < 2 then Member(10, 2, 10) else Member(0, 0, 0)))
  }

  /** Such writes exist: on this pool, block 2^52 + 1 reaches one replica of the
      superblock. */
  lemma SplitExample()
    ensures SizesValid(SplitPool()) && SplitsReplicas(SplitPool(), ADDRESSABLE + 1)
  {
    hide DataMembers, MetadataMembers, LogMembers;
    var p, b := SplitPool(), ADDRESSABLE + 1;
    SplitMembers();
    MemberLists(p);
    var ms := MetadataMembers(p);
    assert BootstrapMembers(p, 1) == ms && MapData(p, b).Ok?;
    MirrorBlock(p, b);
    var i :| 0 <= i < |ms| && ms[i] == 0;
    var j :| 0 <= j < |ms| && ms[j] == 1;
    assert WritesTo(p, b, ms[i]) && !WritesTo(p, b, ms[j]);
  }

  lemma SplitMembers()
    ensures 0 in MetadataMembers(SplitPool()) && 1 in MetadataMembers(SplitPool())
    ensures 0 in DataMembers(SplitPool()) && 1 !in DataMembers(SplitPool())
  {
    hide SetBits;
    var p := SplitPool();
    SetBitsEnumerate(Effective(p.metadataMask, 2), MAX_DEVICES);
    SetBitsEnumerate(Effective(p.dataMask, 2), MAX_DEVICES);
    assert Limited(p.metadataMask, 2)[0] && Limited(p.dataMask, 2)[0];
  }

  // -------------------------------------------------------------- uneven parity members

  /** Parity over three members with 2, 2 and 1 data blocks, one block a stripe. */
  function UnevenPool(): Pool {
    var all: Mask := seq(32, i requires 0 <= i < 32 => i < 3);
    Pool(PROFILE_PARITY, 3, 1, all, all, all,
         seq(8, i requires 0 <= i < 8 => if i < 2 then Member(10, 2, 10) else if i == 2 then Member(9, 1, 9) else Member(0, 0, 0)))
  }

  function UnevenDisks(): Disks {
    [Disk(10), Disk(10), Disk(9)]
  }

  lemma UnevenMembers()
    ensures Attached(UnevenPool(), UnevenDisks()) && SizesValid(UnevenPool())
    ensures DataMembers(UnevenPool()) == MetadataMembers(UnevenPool()) == LogMembers(UnevenPool()) == [0, 1, 2]
  {
    var all: Mask := seq(32, i requires 0 <= i < 32 => i < 3);
    hide Members;
    assert Limited(all, 3) == all;
    assert all[0];
    assert Effective(all, 3) == all;
    ThreeMembers(all);
  }

  lemma ThreeMembers(m: Mask)
    requires forall i :: 0 <= i < 32 ==> m[i] == (i < 3)
    ensures Members(m) == [0, 1, 2]
  {
    hide SetBits;
    SetBitsEnumerate(m, MAX_DEVICES);
    var s := Members(m);
    assert 0 in s && 1 in s && 2 in s;
    FirstThree(s);
  }

  lemma {:induction false} AscendingAtLeast(s: seq<nat>, i: nat)
    requires Ascending(s) && i < |s|
    ensures s[i] >= i
    decreases i
  {
    if i > 0 {
      AscendingAtLeast(s, i - 1);
    }
  }

  lemma FirstThree(s: seq<nat>)
    requires Ascending(s) && 0 in s && 1 in s && 2 in s && forall x :: x in s ==> x < 3
    ensures s == [0, 1, 2]
  {
    AscendingAtLeast(s, |s| - 1);
    assert s[|s| - 1] in s;
    var i :| 0 <= i < |s| && s[i] == 0;
    var j :| 0 <= j < |s| && s[j] == 1;
    var k :| 0 <= k < |s| && s[k] == 2;
    AscendingAtLeast(s, i);
    AscendingAtLeast(s, j);
    AscendingAtLeast(s, k);
  }

  lemma {:induction false} ZeroRow(d: Disks, ms: seq<nat>, c: nat, k: nat)
    requires k <= |ms| && forall m: nat :: HasCell(d, m, c) ==> d[m][c] == ZeroBlock()
    ensures RowXor(d, ms, c, k) == ZeroBlock()
    decreases k
  {
    hide XorBlock, ZeroBlock;
    XorBlockZero(ZeroBlock());
    if k != 0 {
      ZeroRow(d, ms, c, k - 1);
    }
  }

  lemma UnevenRedundant()
    ensures Redundant(UnevenPool(), UnevenDisks())
  {
    hide RowXor, DataMembers, MetadataMembers, LogMembers, UnevenPool, ZeroBlock, PoolMap.Opened;
    UnevenMembers();
    var p, d := UnevenPool(), UnevenDisks();
    UnevenProfile();
    forall b | SUPER_BLOCK <= b < DATA_START
      ensures Agree(d, [0, 1, 2], b)
    {
    }
    forall c: nat
      ensures RowXor(d, DataMembers(p), c, |DataMembers(p)|) == ZeroBlock()
    {
      ZeroRow(d, DataMembers(p), c, |DataMembers(p)|);
    }
  }

  lemma UnevenProfile()
    ensures UnevenPool().profile == PROFILE_PARITY
  {
  }

  lemma UnevenMap()
    ensures MapData(UnevenPool(), 10) == Ok(Mapping(0, 1, 9))
  {
    hide DataMembers;
    UnevenMembers();
    assert ParityCell(3, 1, 10) == Cell(0, 9) && ParityOrdinal(3, 1, 9) == 1;
  }

  /** The map bounds only the data and the parity member of a row, and the scrub reads
      every member: on this pool, whose label and blocks are all in order, a block that
      can be written cannot be scrubbed. */
  lemma UnevenParityExample(buf: Block)
    ensures var p, d := UnevenPool(), UnevenDisks();
            && Attached(p, d) && SizesValid(p) && Redundant(p, d) && MapData(p, 10).Ok?
            && WriteBlock(p, d, true, Faults({}, map[]), 10, buf).rc.Zero?
            && ScrubOne(p, WriteBlock(p, d, true, Faults({}, map[]), 10, buf).disks, {}, 10) == Neg(EIO)
            && !Passes(p, d, [Interval(10, 1)])
  {
    hide DataMembers, MapData, XorBlock, CellOf, Redundant;
    var p, d := UnevenPool(), UnevenDisks();
    UnevenMembers();
    UnevenRedundant();
    UnevenMap();
    CellOfExact(9);
    assert !HasCell(d, 2, 9) && DataMembers(p)[2] == 2;
    var d' := WriteBlock(p, d, true, Faults({}, map[]), 10, buf).disks;
    WriteKeepsSizes(p, d, true, Faults({}, map[]), 10, buf);
    assert !HasCell(d', 2, 9);
    IncompleteScrub(p, d', 10, 9);
    assert InUse([Interval(10, 1)], 0, 10) && !Scrubbable(p, d, 10);
  }
}
