/** The whole check of a pool: when it accepts, that over every run of writes it judges
    what a flat array of blocks would hold, and what damage it finds. */
module PoolCheck {
  import opened Bytes
  import opened Masks
  import opened Crc
  import opened Layout
  import opened Intervals
  import opened V = Validator
  import opened ValidatorLaws
  import opened Acceptance
  import opened Loader
  import opened SpaceBound
  import opened PoolMap
  import opened PoolBlocks
  import opened PoolRefinement
  import opened Redundancy
  import opened ScrubLaws
  import opened PoolOpen
  import opened PoolHandle
  import opened ImageCheck
  import opened Ownership
  import opened BurstLaws
  import opened DeviceCorruption

  // ----------------------------------------------------------------------- the verdict

  /** The structures of the pool load and validate. */
  predicate Sound(p: Pool, d: Disks, logical: nat)
    requires Attached(p, d)
  {
    Readable(ReaderOf(p, d, {}), logical, p.memberCount)
  }

  predicate Readable(rd: Reader, logical: nat, members: nat) {
    var img := Load(rd, logical, members);
    img.Ok? && Loaded(img.value) && Validate(rd, img.value).Ok?
  }

  /** The used intervals the validator hands to the scrub, and what it reports. */
  function AcceptedBy(rd: Reader, logical: nat, members: nat): Accepted
    requires Readable(rd, logical, members)
  {
    Validate(rd, Load(rd, logical, members).value).value
  }

  lemma CheckParts(p: Pool, d: Disks, logical: nat)
    requires Attached(p, d)
    ensures CheckOpened(p, d, {}, logical).Ok? <==>
            Sound(p, d, logical) && Scrub(p, d, {}, AcceptedBy(ReaderOf(p, d, {}), logical, p.memberCount).used).Zero?
    ensures CheckOpened(p, d, {}, logical).Ok? ==>
              CheckOpened(p, d, {}, logical).value == AcceptedBy(ReaderOf(p, d, {}), logical, p.memberCount).report
  {
    hide Load, Validate, Scrub, Loaded, ReaderOf, PoolMap.Opened;
    if Load(ReaderOf(p, d, {}), logical, p.memberCount).Ok? {
      LoadParts(ReaderOf(p, d, {}), logical, p.memberCount);
    }
  }

  /** A redundant pool is accepted exactly when its structures are sound and no used
      block has an incomplete row. */
  lemma PoolChecks(p: Pool, d: Disks, logical: nat)
    requires Attached(p, d) && Redundant(p, d)
    ensures CheckOpened(p, d, {}, logical).Ok? <==>
            Sound(p, d, logical) && Passes(p, d, AcceptedBy(ReaderOf(p, d, {}), logical, p.memberCount).used)
  {
    hide CheckOpened, Scrub, Passes, Redundant, Readable;
    CheckParts(p, d, logical);
    if Sound(p, d, logical) {
      ScrubExact(p, d, AcceptedBy(ReaderOf(p, d, {}), logical, p.memberCount).used);
    }
  }

  /** So is every pool that opens. */
  lemma OpenedPoolChecks(devs: seq<Device>, h: Handle)
    requires 2 <= |devs| <= MAX_DEVICES && (forall i :: 0 <= i < |devs| ==> HasLabel(devs[i])) && OnePool(LabelsOf(devs)) && IsTable(devs, h)
    ensures Attached(PoolOf(h), h.disks) && PoolOf(h).memberCount == |devs|
    ensures Redundant(PoolOf(h), h.disks) ==>
              (CheckOpened(PoolOf(h), h.disks, {}, LogicalBlocks(h.poolLabel)).Ok? <==>
               Sound(PoolOf(h), h.disks, LogicalBlocks(h.poolLabel)) &&
               Passes(PoolOf(h), h.disks, AcceptedBy(ReaderOf(PoolOf(h), h.disks, {}), LogicalBlocks(h.poolLabel), |devs|).used))
  {
    hide CheckOpened, Passes, Redundant, Sound, Readable, HasLabel, OnePool, LabelsOf, CheckLabel, Normalized, KeptLabel, LogicalBlocks, Bits;
    OpenedPool(devs, h);
    if Redundant(PoolOf(h), h.disks) {
      PoolChecks(PoolOf(h), h.disks, LogicalBlocks(h.poolLabel));
    }
  }

  // ----------------------------------------------------------- what the verdict depends on

  /** Below lim, rd' reads what rd can read. */
  ghost predicate Carries(rd: Reader, rd': Reader, lim: nat) {
    forall b: nat :: b < lim && rd(b).Ok? ==> rd'(b) == rd(b)
  }

  /** The superblock's pointers lie below lim. */
  predicate PointersBelow(rd: Reader, lim: nat) {
    rd(SUPER_BLOCK).Ok? ==> JournalAddr(SuperOf(rd(SUPER_BLOCK).value)) < lim && RootInodeAddr(SuperOf(rd(SUPER_BLOCK).value)) < lim
  }

  lemma LoadCarried(rd: Reader, rd': Reader, logical: nat, members: nat)
    requires Load(rd, logical, members).Ok? && DATA_START <= logical && Carries(rd, rd', logical) && PointersBelow(rd, logical)
    ensures Load(rd', logical, members) == Load(rd, logical, members)
  {
    hide Load, CheckSuper, CheckCheckpoint, CheckBitmap, JournalSealed, Sealed, SuperOf, JournalOf, JournalAddr, RootInodeAddr, Loaded;
    LoadParts(rd, logical, members);
    LoadBound(rd, logical, members);
    LoadAccepts(rd', logical, members, Load(rd, logical, members).value);
  }

  lemma LoadBound(rd: Reader, logical: nat, members: nat)
    requires Load(rd, logical, members).Ok?
    ensures var img := Load(rd, logical, members).value;
            |img.super| == SUPER_SIZE && |img.journal| == JOURNAL_SIZE && NodeCount(img.free) <= EXTENTS_MAX
  {
    hide Load, CheckSuper, CheckCheckpoint, CheckBitmap, JournalSealed, Sealed, SuperOf, JournalOf, JournalAddr, RootInodeAddr;
    LoadParts(rd, logical, members);
  }

  lemma ValidateCarried(rd: Reader, rd': Reader, img: Image)
    requires Loaded(img) && Validate(rd, img).Ok? && Carries(rd, rd', img.blocks) && rd(ROOT_DIR_BLOCK) == rd'(ROOT_DIR_BLOCK)
    ensures Validate(rd', img) == Validate(rd, img)
  {
    hide ScanInodes, Hits, Get64, Get32, BitSet, ScanDir, ScanFree, Sweep, Sort, Coverage, NodeNext, NodeCount, RootDirBlock;
    AcceptedConserves(rd, img);
    ScanFacts(rd, img);
    var used := TheScan(rd, img).used;
    ScanInodesRead(rd, img, Refs(img), MAX_INODES);
    forall b: nat | Hits(used, b) >= 1
      ensures rd(b) == rd'(b)
    {
      UsedRead(rd, rd', used, img.blocks, b);
    }
    ScanInodesFrame(rd, rd', img, Refs(img), MAX_INODES);
  }

  lemma UsedRead(rd: Reader, rd': Reader, used: seq<Interval>, blocks: nat, b: nat)
    requires used != [] && used[0] == Interval(ROOT_DIR_BLOCK, 1) && Hits(used, b) >= 1
    requires Hits(used[1..], b) <= if DATA_START <= b < blocks then 1 else 0
    requires AllRead(rd, used[1..]) && Carries(rd, rd', blocks) && rd(ROOT_DIR_BLOCK) == rd'(ROOT_DIR_BLOCK)
    ensures rd(b) == rd'(b)
  {
    assert Hits(used, b) == Holds(used[0], b) + Hits(used[1..], b);
  }

  /** Two readers that read alike below the size of the image give the same verdict. */
  lemma SameVerdict(rd: Reader, rd': Reader, logical: nat, members: nat)
    requires DATA_START <= logical && Carries(rd, rd', logical) && PointersBelow(rd, logical) && Readable(rd, logical, members)
    ensures Readable(rd', logical, members) && AcceptedBy(rd', logical, members) == AcceptedBy(rd, logical, members)
  {
    hide Load, Validate, Loaded, CheckSuper, CheckCheckpoint, CheckBitmap, JournalSealed, Sealed, SuperOf, JournalOf, JournalAddr, RootInodeAddr, BlocksCount;
    LoadCarried(rd, rd', logical, members);
    LoadParts(rd, logical, members);
    ValidateCarried(rd, rd', Load(rd, logical, members).value);
  }

  // ----------------------------------------------------------------------- every run

  function FlatReader(flat: map<nat, Block>): Reader {
    (b: nat) => if b in flat then Ok(flat[b]) else Err(EIO)
  }

  /** Below lim, the pool reads exactly what the array holds. */
  ghost predicate View(p: Pool, d: Disks, flat: map<nat, Block>, lim: nat)
    requires Attached(p, d)
  {
    forall b: nat :: b < lim ==> if b in flat then ReadBlock(p, d, {}, b) == Ok(flat[b]) else ReadBlock(p, d, {}, b).Err?
  }

  /** A block that a completed write went to can be read. */
  lemma WrittenReachable(p: Pool, d: Disks, io: Faults, b: nat, buf: Block)
    requires Attached(p, d) && WriteBlock(p, d, true, io, b, buf).rc.Zero?
    ensures Reachable(p, {}, b)
  {
    hide MapData, CellOf, MemberWrite, XorBlock;
    MemberLists(p);
    if b < DATA_START {
      WriteReplicasHold(p, d, io.torn, BootstrapMembers(p, b), 0, b, buf, 0);
      assert DependsOn(p, b, BootstrapMembers(p, b)[0], CellOf(b).value);
    } else {
      var m := MapData(p, b).value;
      if p.profile == PROFILE_MIRROR {
        WriteReplicasHold(p, d, io.torn, DataMembers(p), 0, m.block, buf, 0);
      } else if p.profile == PROFILE_PARITY {
        ParityApart(p, b, b);
        ParityWriteStores(p, d, io, m, buf);
      } else {
        MemberWriteHolds(p, d, io.torn, m.member, m.block, buf);
      }
      MappedInside(p, b);
      assert DependsOn(p, b, m.member, CellOf(m.block).value);
    }
  }

  lemma StepView(p: Pool, d: Disks, op: Op, flat: map<nat, Block>, lim: nat)
    requires Attached(p, d) && View(p, d, flat, lim) && WriteBlock(p, d, true, op.io, op.block, op.buf).rc.Zero?
    requires forall b: nat :: b < lim ==> b == op.block || !Aliased(p, op.block, b)
    ensures View(p, WriteBlock(p, d, true, op.io, op.block, op.buf).disks, flat[op.block := op.buf], lim)
  {
    hide WriteBlock, ReadBlock, Reachable, Aliased;
    WrittenReachable(p, d, op.io, op.block, op.buf);
    WriteReadsBack(p, d, true, op.io, op.block, op.buf, {});
    forall b: nat | b < lim && b != op.block
      ensures ReadBlock(p, WriteBlock(p, d, true, op.io, op.block, op.buf).disks, {}, b) == ReadBlock(p, d, {}, b)
    {
      WriteKeepsOthers(p, d, true, op.io, op.block, op.buf, {}, b);
    }
  }

  /** Over every run of completed writes the pool reads exactly what the array holds. */
  lemma {:induction false} RunView(p: Pool, d: Disks, ops: seq<Op>, initial: map<nat, Block>, lim: nat)
    requires Attached(p, d) && Completes(p, d, ops) && View(p, d, initial, lim)
    requires forall b: nat :: b < lim ==> Undisturbed(p, ops, b)
    ensures View(p, Run(p, d, ops), Flat(initial, ops), lim)
    decreases |ops|
  {
    hide WriteBlock, View, Aliased, PoolMap.Opened;
    if ops != [] {
      var n := |ops| - 1;
      var before := ops[..n];
      CompletesPrefix(p, d, ops, n);
      assert forall i :: 0 <= i < n ==> before[i] == ops[i];
      forall b: nat | b < lim
        ensures Undisturbed(p, before, b)
      {
        assert Undisturbed(p, ops, b);
      }
      RunView(p, d, before, initial, lim);
      forall b: nat | b < lim
        ensures b == ops[n].block || !Aliased(p, ops[n].block, b)
      {
        assert Undisturbed(p, ops, b);
      }
      StepView(p, Run(p, d, before), ops[n], Flat(initial, before), lim);
    }
  }

  /** After every run of completed writes, the check of a redundant pool accepts exactly
      when the flat array it stands for is a sound image and no used block has an
      incomplete row, and it reports what the array's image reports. */
  lemma RunChecks(p: Pool, d: Disks, ops: seq<Op>, initial: map<nat, Block>, logical: nat)
    requires Attached(p, d) && Redundant(p, d) && Completes(p, d, ops) && DATA_START <= logical && View(p, d, initial, logical)
    requires forall i :: 0 <= i < |ops| ==> !SplitsReplicas(p, ops[i].block)
    requires forall b: nat :: b < logical ==> Undisturbed(p, ops, b)
    requires PointersBelow(FlatReader(Flat(initial, ops)), logical)
    ensures var rd, check := FlatReader(Flat(initial, ops)), CheckOpened(p, Run(p, d, ops), {}, logical);
            && (check.Ok? <==> Readable(rd, logical, p.memberCount) && Passes(p, Run(p, d, ops), AcceptedBy(rd, logical, p.memberCount).used))
            && (check.Ok? ==> check.value == AcceptedBy(rd, logical, p.memberCount).report)
  {
    hide CheckOpened, Passes, Redundant, Readable, Completes, Undisturbed, SplitsReplicas, PointersBelow, AcceptedBy, PoolMap.Opened, Flat;
    var d' := Run(p, d, ops);
    var rd, rd' := FlatReader(Flat(initial, ops)), ReaderOf(p, d', {});
    RunView(p, d, ops, initial, logical);
    RunKeepsRedundancy(p, d, ops);
    PoolChecks(p, d', logical);
    CheckParts(p, d', logical);
    ViewCarries(p, d', Flat(initial, ops), logical);
    if Readable(rd, logical, p.memberCount) {
      SameVerdict(rd, rd', logical, p.memberCount);
    }
    if Readable(rd', logical, p.memberCount) {
      SamePointers(rd, rd', logical);
      SameVerdict(rd', rd, logical, p.memberCount);
    }
  }

  lemma ViewCarries(p: Pool, d: Disks, flat: map<nat, Block>, lim: nat)
    requires Attached(p, d) && View(p, d, flat, lim)
    ensures Carries(FlatReader(flat), ReaderOf(p, d, {}), lim) && Carries(ReaderOf(p, d, {}), FlatReader(flat), lim)
  {
    hide ReadBlock;
  }

  lemma SamePointers(rd: Reader, rd': Reader, lim: nat)
    requires DATA_START <= lim && Carries(rd', rd, lim) && PointersBelow(rd, lim)
    ensures PointersBelow(rd', lim)
  {
    hide JournalAddr, RootInodeAddr, SuperOf;
  }

  // -------------------------------------------------------------------------- damage

  /** What a read makes of a changed cell. */
  lemma CellSeen(p: Pool, d: Disks, m: nat, c: nat, v: Block, b: nat)
    requires Attached(p, d) && HasCell(d, m, c)
    ensures Attached(p, Store(d, m, c, v))
    ensures var r, r' := ReadBlock(p, d, {}, b), ReadBlock(p, Store(d, m, c, v), {}, b);
            && (r' == r || (r == Ok(d[m][c]) && r' == Ok(v)))
            && (!DependsOn(p, b, m, c) ==> r' == r)
  {
    hide MapData, CellOf, PoolMap.Opened;
    MemberLists(p);
    if !DependsOn(p, b, m, c) {
      ReadFrame(p, d, Store(d, m, c, v), {}, b);
    } else if b < DATA_START {
      FirstSeen(p, d, m, c, v, BootstrapMembers(p, b), 0, b);
    }
  }

  lemma {:induction false} FirstSeen(p: Pool, d: Disks, m: nat, c: nat, v: Block, ms: seq<nat>, k: nat, b: nat)
    requires Attached(p, d) && HasCell(d, m, c) && k <= |ms| && Attached(p, Store(d, m, c, v))
    ensures var r, r' := ReadFirst(p, d, {}, ms, k, b), ReadFirst(p, Store(d, m, c, v), {}, ms, k, b);
            r' == r || (r == Ok(d[m][c]) && r' == Ok(v))
    decreases |ms| - k
  {
    hide CellOf, PoolMap.Opened;
    if k < |ms| {
      FirstSeen(p, d, m, c, v, ms, k + 1, b);
    }
  }

  /** Burst damage to file data is rejected on a pool of any profile, whatever other
      blocks the damaged cell serves, if the chain that holds the sum is elsewhere. */
  lemma BurstInPoolRejected(p: Pool, d: Disks, logical: nat, i: nat, e: nat, k: nat, x: nat, m: nat, c: nat, v: Block, at: nat, w: nat)
    requires Attached(p, d) && CheckOpened(p, d, {}, logical).Ok? && Sound(p, d, logical) && i < MAX_INODES && e < EXTENTS_MAX
    requires var rd := ReaderOf(p, d, {}); var img := Load(rd, logical, p.memberCount).value;
             && OwnedBy(rd, img, i, Data(e, k), x) && DependsOn(p, x, m, c)
             && forall y :: y in ChainOf(rd, img.blocks, NodeOf(rd, InodeAt(img, i)), e) ==> !DependsOn(p, y, m, c)
    requires HasCell(d, m, c) && DifferWithin(d[m][c], v, at, w) && w <= 4 && v != d[m][c]
    ensures Attached(p, Store(d, m, c, v)) && CheckOpened(p, Store(d, m, c, v), {}, logical).Err?
  {
    hide CheckOpened, Load, Validate, Loaded, ReadBlock, DifferWithin, OwnedBy, DependsOn, NodeOf, ChainOf, InodeAt, PoolMap.Opened;
    var d' := Store(d, m, c, v);
    var rd := ReaderOf(p, d, {});
    var img := Load(rd, logical, p.memberCount).value;
    forall b: nat
      ensures Attached(p, d')
      ensures ReadBlock(p, d', {}, b) == ReadBlock(p, d, {}, b) || (ReadBlock(p, d, {}, b) == Ok(d[m][c]) && ReadBlock(p, d', {}, b) == Ok(v))
      ensures !DependsOn(p, b, m, c) ==> ReadBlock(p, d', {}, b) == ReadBlock(p, d, {}, b)
    {
      CellSeen(p, d, m, c, v, b);
    }
    CellSeen(p, d, m, c, v, x);
    var rd' := ReaderOf(p, d', {});
    OwnedReads(rd, img, i, e, k, x);
    DataCell(p, d, x, m, c);
    DataCell(p, d', x, m, c);
    BurstRejected(rd, rd', logical, p.memberCount, logical, p.memberCount, i, e, k, x, v, at, w);
    CheckParts(p, d', logical);
  }

  lemma DataCell(p: Pool, d: Disks, x: nat, m: nat, c: nat)
    requires Attached(p, d) && x >= DATA_START && DependsOn(p, x, m, c) && HasCell(d, m, c)
    ensures ReadBlock(p, d, {}, x) == Ok(d[m][c])
  {
    hide MapData, CellOf;
    MappedInside(p, x);
  }

  /** A change that no read shows (a parity cell, a further replica) is found by the
      scrub, however large it is. */
  lemma HiddenChangeRejected(p: Pool, d: Disks, logical: nat, j: nat, x: nat, i: nat, v: Block)
    requires Attached(p, d) && CheckOpened(p, d, {}, logical).Ok? && Sound(p, d, logical) && Scrubbed(p) && i < |DataMembers(p)|
    requires var used := AcceptedBy(ReaderOf(p, d, {}), logical, p.memberCount).used; j < |used| && InUse(used, j, x)
    requires MapData(p, x).Ok? && CellOf(MapData(p, x).value.block).Ok?
    requires var m, c := DataMembers(p)[i], CellOf(MapData(p, x).value.block).value;
             HasCell(d, m, c) && v != d[m][c] && forall b: nat :: !DependsOn(p, b, m, c)
    ensures var d' := Store(d, DataMembers(p)[i], CellOf(MapData(p, x).value.block).value, v);
            Attached(p, d') && CheckOpened(p, d', {}, logical).Err?
  {
    hide CheckOpened, Load, Validate, Loaded, ReadBlock, DependsOn, MapData, CellOf, DataMembers, Scrubbed, Scrub, PoolMap.Opened;
    var m, c := DataMembers(p)[i], CellOf(MapData(p, x).value.block).value;
    var d' := Store(d, m, c, v);
    var rd := ReaderOf(p, d, {});
    CellSeen(p, d, m, c, v, x);
    var rd' := ReaderOf(p, d', {});
    CheckParts(p, d, logical);
    ChangeFound(p, d, AcceptedBy(rd, logical, p.memberCount).used, j, x, i, v);
    forall b: nat
      ensures rd'(b) == rd(b)
    {
      CellSeen(p, d, m, c, v, b);
    }
    CheckParts(p, d', logical);
    SameReader(rd, rd', logical, p.memberCount);
  }

  lemma SameReader(rd: Reader, rd': Reader, logical: nat, members: nat)
    requires Readable(rd, logical, members) && forall b: nat :: rd'(b) == rd(b)
    ensures Readable(rd', logical, members) ==> AcceptedBy(rd', logical, members) == AcceptedBy(rd, logical, members)
  {
    hide Load, Validate, Loaded, CheckSuper, CheckCheckpoint, CheckBitmap, JournalSealed, Sealed, SuperOf, JournalOf, JournalAddr, RootInodeAddr;
    LoadParts(rd, logical, members);
    LoadFrame(rd, rd', logical, members);
    ValidateCarried(rd, rd', Load(rd, logical, members).value);
  }
}
