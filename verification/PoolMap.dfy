/** The block-address layer of a pool: from a logical data block to a member and
    a block of that member, for each of the five profiles. */
module PoolMap {
  import opened Bytes
  import opened Masks
  import opened Geometry

  const PROFILE_SINGLE: nat := 0
  const PROFILE_MIRROR: nat := 1
  const PROFILE_STRIPE: nat := 2
  const PROFILE_PARITY: nat := 3
  const PROFILE_TIERED: nat := 4

  /** What the label says of a member, and how many blocks its device holds. */
  datatype Member = Member(total: nat, data: nat, deviceBlocks: nat)

  /** The label of an opened pool, as far as addressing depends on it. */
  datatype Pool = Pool(
    profile: nat,
    memberCount: nat,
    stripeBlocks: nat,
    metadataMask: Mask,
    dataMask: Mask,
    logMask: Mask,
    members: seq<Member>)

  /** What opening an image establishes. */
  predicate Opened(p: Pool) {
    && 1 <= p.memberCount <= MAX_DEVICES && |p.members| == MAX_DEVICES
    && forall i :: 0 <= i < MAX_DEVICES ==>
                     p.members[i].total < U64 && p.members[i].data < U64 && p.members[i].deviceBlocks < U64
  }

  function DataMembers(p: Pool): seq<nat> {
    Members(Effective(p.dataMask, p.memberCount))
  }

  function MetadataMembers(p: Pool): seq<nat> {
    Members(Effective(p.metadataMask, p.memberCount))
  }

  function LogMembers(p: Pool): seq<nat> {
    if IsZero(Limited(p.logMask, p.memberCount)) then MetadataMembers(p)
    else Members(Limited(p.logMask, p.memberCount))
  }

  /** The members that replicate a bootstrap block. */
  function BootstrapMembers(p: Pool, block: nat): seq<nat> {
    if block == JOURNAL_BLOCK then LogMembers(p) else MetadataMembers(p)
  }

  function TotalBlocks(p: Pool, i: nat): nat
    requires i < |p.members|
  {
    if p.members[i].total == 0 then p.members[i].deviceBlocks else p.members[i].total
  }

  function DataBlocks(p: Pool, i: nat): nat
    requires i < |p.members|
  {
    if p.members[i].data == 0 && TotalBlocks(p, i) > DATA_START then TotalBlocks(p, i) - DATA_START
    else p.members[i].data
  }

  const NO_PARITY: nat := 0xFFFF_FFFF

  datatype Mapping = Mapping(member: nat, parity: nat, block: nat)

  /** A list of distinct members, all present. */
  ghost predicate MemberList(ms: seq<nat>, count: nat) {
    && ms != [] && Ascending(ms)
    && forall i :: 0 <= i < |ms| ==> ms[i] < count
  }

  lemma MemberLists(p: Pool)
    requires Opened(p)
    ensures MemberList(DataMembers(p), p.memberCount)
    ensures MemberList(MetadataMembers(p), p.memberCount)
    ensures MemberList(LogMembers(p), p.memberCount)
  {
    EffectiveMembers(p.dataMask, p.memberCount);
    EffectiveMembers(p.metadataMask, p.memberCount);
    if !IsZero(Limited(p.logMask, p.memberCount)) {
      LowMembers(Limited(p.logMask, p.memberCount), p.memberCount);
    }
  }

  /** Which members hold data, metadata and the log: those their masks name, or
      member 0 if a mask names none; the log falls back to the metadata members. The
      lists are in ascending order. */
  lemma RoleMembers(p: Pool, i: nat)
    requires Opened(p)
    ensures i in DataMembers(p) <==> if NamesOne(p.dataMask, p.memberCount) then i < p.memberCount && p.dataMask[i] else i == 0
    ensures i in MetadataMembers(p) <==> if NamesOne(p.metadataMask, p.memberCount) then i < p.memberCount && p.metadataMask[i] else i == 0
    ensures i in LogMembers(p) <==>
            if NamesOne(p.logMask, p.memberCount) then i < p.memberCount && p.logMask[i] else i in MetadataMembers(p)
    ensures MemberList(DataMembers(p), p.memberCount) && MemberList(MetadataMembers(p), p.memberCount) && MemberList(LogMembers(p), p.memberCount)
  {
    hide Effective, Members;
    EffectiveExact(p.dataMask, p.memberCount);
    EffectiveExact(p.metadataMask, p.memberCount);
    LogExact(p, i);
    MemberLists(p);
  }

  /** The journal block is kept on the log members, every other bootstrap block on the
      metadata members. */
  lemma BootstrapRoles(p: Pool, b: nat)
    requires b < 8
    ensures BootstrapMembers(p, b) == if b == 4 then LogMembers(p) else MetadataMembers(p)
  {
  }

  lemma LogExact(p: Pool, i: nat)
    requires Opened(p)
    ensures i in LogMembers(p) <==>
            if NamesOne(p.logMask, p.memberCount) then i < p.memberCount && p.logMask[i] else i in MetadataMembers(p)
  {
    hide SetBits, Effective, NamesOne;
    LimitedZero(p.logMask, p.memberCount);
    SetBitsEnumerate(Limited(p.logMask, p.memberCount), MAX_DEVICES);
  }

  // ------------------------------------------------------------------------ linear

  function LinearFrom(p: Pool, ms: seq<nat>, k: nat, remaining: nat): Result<Mapping>
    requires k <= |ms| && forall i :: 0 <= i < |ms| ==> ms[i] < |p.members|
    decreases |ms| - k
  {
    if k == |ms| then Err(ERANGE)
    else if remaining < DataBlocks(p, ms[k]) then Ok(Mapping(ms[k], NO_PARITY, DATA_START + remaining))
    else LinearFrom(p, ms, k + 1, remaining - DataBlocks(p, ms[k]))
  }

  function MapLinear(p: Pool, b: nat): Result<Mapping>
    requires Opened(p) && b >= DATA_START
  {
    MemberLists(p);
    LinearFrom(p, DataMembers(p), 0, b - DATA_START)
  }

  /** `aetherfs_pool_map_linear`, its loop over the set bits of the data mask. */
  method MapLinearLoop(p: Pool, b: nat) returns (r: Result<Mapping>)
    requires Opened(p) && b >= DATA_START
    ensures r == MapLinear(p, b)
  {
    var mask := Effective(p.dataMask, p.memberCount);
    EffectiveMembers(p.dataMask, p.memberCount);
    MemberLists(p);
    var remaining: nat := b - DATA_START;
    var ordinal := 0;
    while ordinal < Count(mask)
      invariant ordinal <= Count(mask)
      invariant MapLinear(p, b) == LinearFrom(p, DataMembers(p), ordinal, remaining)
    {
      var member := MaskNth(mask, ordinal);
      var blocks := DataBlocks(p, member);
      if remaining < blocks {
        return Ok(Mapping(member, NO_PARITY, DATA_START + remaining));
      }
      remaining := remaining - blocks;
      ordinal := ordinal + 1;
    }
    r := Err(ERANGE);
  }

  /** Data blocks held by the first k members. */
  function CapacityBefore(p: Pool, ms: seq<nat>, k: nat): nat
    requires k <= |ms| && forall i :: 0 <= i < |ms| ==> ms[i] < |p.members|
  {
    if k == 0 then 0 else CapacityBefore(p, ms, k - 1) + DataBlocks(p, ms[k - 1])
  }

  /** Concatenation: block b is the (b - 8)-th data block counted member after
      member, and every block below the joint capacity is mapped. */
  lemma {:induction false} LinearInverse(p: Pool, ms: seq<nat>, k: nat, remaining: nat) returns (at: nat)
    requires k <= |ms| && forall i :: 0 <= i < |ms| ==> ms[i] < |p.members|
    ensures var r := LinearFrom(p, ms, k, remaining);
            && (r.Ok? <==> CapacityBefore(p, ms, k) + remaining < CapacityBefore(p, ms, |ms|))
            && (r.Ok? ==>
                  && k <= at < |ms| && r.value.member == ms[at] && r.value.parity == NO_PARITY
                  && DATA_START <= r.value.block < DATA_START + DataBlocks(p, ms[at])
                  && r.value.block <= DATA_START + remaining
                  && CapacityBefore(p, ms, at) + (r.value.block - DATA_START) == CapacityBefore(p, ms, k) + remaining)
    decreases |ms| - k
  {
    at := k;
    if k < |ms| {
      if remaining < DataBlocks(p, ms[k]) {
        CapacityGrows(p, ms, k + 1, |ms|);
      } else {
        at := LinearInverse(p, ms, k + 1, remaining - DataBlocks(p, ms[k]));
      }
    }
  }

  lemma {:induction false} CapacityGrows(p: Pool, ms: seq<nat>, i: nat, j: nat)
    requires i <= j <= |ms| && forall k :: 0 <= k < |ms| ==> ms[k] < |p.members|
    ensures CapacityBefore(p, ms, i) <= CapacityBefore(p, ms, j)
    decreases j
  {
    if i < j {
      CapacityGrows(p, ms, i, j - 1);
    }
  }

  // ----------------------------------------------------- mirror, stripe and parity

  function MapMirror(p: Pool, b: nat): Result<Mapping> {
    if DataMembers(p) == [] then Err(EINVAL)
    else Ok(Mapping(DataMembers(p)[0], NO_PARITY, b))
  }

  function MapStripe(p: Pool, b: nat): Result<Mapping>
    requires Opened(p) && b >= DATA_START
  {
    MemberLists(p);
    var ms := DataMembers(p);
    if p.stripeBlocks == 0 then Err(EINVAL) else
    var c := StripeCell(|ms|, p.stripeBlocks, b);
    StripeThereAndBack(|ms|, p.stripeBlocks, b);
    if c.block >= Add64(DATA_START, DataBlocks(p, ms[c.ordinal])) then Err(ERANGE)
    else Ok(Mapping(ms[c.ordinal], NO_PARITY, c.block))
  }

  function MapParity(p: Pool, b: nat): Result<Mapping>
    requires Opened(p) && b >= DATA_START
  {
    MemberLists(p);
    var ms := DataMembers(p);
    if |ms| < 3 || p.stripeBlocks == 0 then Err(EINVAL) else
    var c := ParityCell(|ms|, p.stripeBlocks, b);
    ParityThereAndBack(|ms|, p.stripeBlocks, b);
    var parity := ParityOrdinal(|ms|, p.stripeBlocks, c.block);
    if c.block >= Add64(DATA_START, DataBlocks(p, ms[c.ordinal]))
       || c.block >= Add64(DATA_START, DataBlocks(p, ms[parity])) then Err(ERANGE)
    else Ok(Mapping(ms[c.ordinal], ms[parity], c.block))
  }

  function MapData(p: Pool, b: nat): Result<Mapping>
    requires Opened(p) && b >= DATA_START
  {
    if p.profile == PROFILE_SINGLE || p.profile == PROFILE_TIERED then MapLinear(p, b)
    else if p.profile == PROFILE_MIRROR then MapMirror(p, b)
    else if p.profile == PROFILE_STRIPE then MapStripe(p, b)
    else if p.profile == PROFILE_PARITY then MapParity(p, b)
    else Err(EINVAL)
  }

  // ---------------------------------------------------- the laws of the address map

  /** A mapped block lands in the data area of a data member, no further out than
      its own number, and inside the member except under a mirror, whose map has
      no bound of its own. */
  lemma MappedInside(p: Pool, b: nat)
    requires Opened(p) && b >= DATA_START && MapData(p, b).Ok?
    ensures var m := MapData(p, b).value;
            && m.member in DataMembers(p) && 0 <= m.member < p.memberCount
            && DATA_START <= m.block <= b
            && (p.profile != PROFILE_MIRROR ==> m.block < DATA_START + DataBlocks(p, m.member))
  {
    hide StripeCell, StripeBlock, ParityCell, ParityBlock, ParityOrdinal, Effective;
    MemberLists(p);
    var ms := DataMembers(p);
    if p.profile == PROFILE_SINGLE || p.profile == PROFILE_TIERED {
      var at := LinearInverse(p, ms, 0, b - DATA_START);
    } else if p.profile == PROFILE_STRIPE {
      StripeThereAndBack(|ms|, p.stripeBlocks, b);
    } else if p.profile == PROFILE_PARITY {
      ParityThereAndBack(|ms|, p.stripeBlocks, b);
    }
  }

  /** Where the profiles put data block b, in terms of the list of data members: the
      first member of a mirror, the ordinal of the stripe or parity grid otherwise, with
      the bounds that can refuse it. */
  lemma MapExact(p: Pool, b: nat)
    requires Opened(p) && b >= DATA_START
    ensures MemberList(DataMembers(p), |p.members|)
    ensures p.profile == PROFILE_MIRROR ==> MapData(p, b) == Ok(Mapping(DataMembers(p)[0], NO_PARITY, b))
    ensures p.profile == PROFILE_STRIPE && p.stripeBlocks > 0 ==>
              var ms, c := DataMembers(p), StripeCell(|DataMembers(p)|, p.stripeBlocks, b);
              && c.ordinal < |ms|
              && MapData(p, b) == if Inside(p, ms[c.ordinal], c.block) then Ok(Mapping(ms[c.ordinal], NO_PARITY, c.block)) else Err(ERANGE)
    ensures p.profile == PROFILE_PARITY && p.stripeBlocks > 0 && |DataMembers(p)| >= 3 ==>
              var ms, c := DataMembers(p), ParityCell(|DataMembers(p)|, p.stripeBlocks, b);
              && c.ordinal < |ms| && c.block >= DATA_START
              && var q := ParityOrdinal(|ms|, p.stripeBlocks, c.block);
                 && q < |ms|
                 && MapData(p, b) == if Inside(p, ms[c.ordinal], c.block) && Inside(p, ms[q], c.block)
                                     then Ok(Mapping(ms[c.ordinal], ms[q], c.block)) else Err(ERANGE)
    ensures (p.profile > PROFILE_TIERED || (p.stripeBlocks == 0 && (p.profile == PROFILE_STRIPE || p.profile == PROFILE_PARITY))
             || (p.profile == PROFILE_PARITY && |DataMembers(p)| < 3)) ==> MapData(p, b) == Err(EINVAL)
  {
    hide StripeCell, ParityCell, ParityOrdinal, Effective;
    MemberLists(p);
    var ms := DataMembers(p);
    if p.stripeBlocks > 0 {
      StripeThereAndBack(|ms|, p.stripeBlocks, b);
      if |ms| >= 3 {
        ParityThereAndBack(|ms|, p.stripeBlocks, b);
        ParityOrdinalBound(|ms|, p.stripeBlocks, ParityCell(|ms|, p.stripeBlocks, b).block);
      }
    }
  }

  /** Member block mb belongs to the data area of member m. */
  predicate Inside(p: Pool, m: nat, mb: nat)
    requires m < |p.members|
  {
    mb < Add64(DATA_START, DataBlocks(p, m))
  }

  /** The data area a valid label gives a member: as many blocks as it says, or all
      after the bootstrap area if it says 0. */
  lemma DataAreaExact(p: Pool, m: nat)
    requires SizesValid(p) && m < p.memberCount
    ensures DATA_START + DataBlocks(p, m) <= p.members[m].total
    ensures if p.members[m].data > 0 then DataBlocks(p, m) == p.members[m].data else DATA_START + DataBlocks(p, m) == p.members[m].total
    ensures forall mb: nat :: Inside(p, m, mb) <==> mb < DATA_START + DataBlocks(p, m)
  {
  }

  /** Without a valid label a total of 0 stands for the size of the device, and a member
      of up to eight blocks has no data area unless the label gives it one. */
  lemma UnstatedSizes(p: Pool, m: nat)
    requires m < |p.members|
    ensures p.members[m].data > 0 ==> DataBlocks(p, m) == p.members[m].data
    ensures p.members[m] == Member(0, 0, p.members[m].deviceBlocks) ==>
              DataBlocks(p, m) == if p.members[m].deviceBlocks <= 8 then 0 else p.members[m].deviceBlocks - 8
    ensures p.members[m].data == 0 && 0 < p.members[m].total <= 8 ==> DataBlocks(p, m) == 0
  {
  }

  /** Distinct positions of a member list are distinct members. */
  lemma SameMemberSameOrdinal(ms: seq<nat>, i: nat, j: nat)
    requires Ascending(ms) && i < |ms| && j < |ms| && ms[i] == ms[j]
    ensures i == j
  {
  }

  /** No two logical data blocks share a member block, under any profile. */
  lemma MapInjective(p: Pool, b: nat, b': nat)
    requires Opened(p) && b >= DATA_START && b' >= DATA_START
    requires MapData(p, b).Ok? && MapData(p, b').Ok?
    requires MapData(p, b).value.member == MapData(p, b').value.member
    requires MapData(p, b).value.block == MapData(p, b').value.block
    ensures b == b'
  {
    hide StripeCell, StripeBlock, ParityCell, ParityBlock, ParityOrdinal, Effective, DataBlocks, LinearFrom;
    MemberLists(p);
    var ms := DataMembers(p);
    if p.profile == PROFILE_SINGLE || p.profile == PROFILE_TIERED {
      var i := LinearInverse(p, ms, 0, b - DATA_START);
      var j := LinearInverse(p, ms, 0, b' - DATA_START);
      SameMemberSameOrdinal(ms, i, j);
    } else if p.profile == PROFILE_STRIPE {
      StripeThereAndBack(|ms|, p.stripeBlocks, b);
      StripeThereAndBack(|ms|, p.stripeBlocks, b');
      SameMemberSameOrdinal(ms, StripeCell(|ms|, p.stripeBlocks, b).ordinal, StripeCell(|ms|, p.stripeBlocks, b').ordinal);
    } else if p.profile == PROFILE_PARITY {
      ParityThereAndBack(|ms|, p.stripeBlocks, b);
      ParityThereAndBack(|ms|, p.stripeBlocks, b');
      SameMemberSameOrdinal(ms, ParityCell(|ms|, p.stripeBlocks, b).ordinal, ParityCell(|ms|, p.stripeBlocks, b').ordinal);
    }
  }

  /** A row keeps its parity on a member that holds no data of that row. */
  lemma ParityApart(p: Pool, b: nat, b': nat)
    requires Opened(p) && p.profile == PROFILE_PARITY && b >= DATA_START && b' >= DATA_START
    requires MapData(p, b).Ok? && MapData(p, b').Ok?
    requires MapData(p, b).value.block == MapData(p, b').value.block
    ensures MapData(p, b).value.parity in DataMembers(p)
    ensures MapData(p, b).value.parity == MapData(p, b').value.parity != MapData(p, b').value.member
  {
    MemberLists(p);
    var ms := DataMembers(p);
    ParityThereAndBack(|ms|, p.stripeBlocks, b);
    ParityThereAndBack(|ms|, p.stripeBlocks, b');
  }

  /** The member sizes `aetherfs_pool_label_validate` admits. */
  predicate SizesValid(p: Pool) {
    Opened(p) && forall i :: 0 <= i < p.memberCount ==>
                               DATA_START <= p.members[i].total && p.members[i].data <= p.members[i].total - DATA_START
  }

  /** Under a valid label every mapped block lies in [8, total) of its member,
      except that a mirror block does so exactly when its own number does. */
  lemma MappedInTotal(p: Pool, b: nat)
    requires SizesValid(p) && b >= DATA_START && MapData(p, b).Ok?
    ensures var m := MapData(p, b).value;
            && 0 <= m.member < p.memberCount && DATA_START <= m.block
            && (m.block < TotalBlocks(p, m.member) <==> p.profile != PROFILE_MIRROR || b < TotalBlocks(p, m.member))
  {
    MappedInside(p, b);
  }

  /** All data members hold D data blocks. */
  ghost predicate EqualMembers(p: Pool, D: nat) {
    && Opened(p)
    && var ms := DataMembers(p);
       forall i :: 0 <= i < |ms| ==> ms[i] < |p.members| && DataBlocks(p, ms[i]) == D
  }

  /** Striping over n equal, stripe-aligned members maps exactly n * D blocks. */
  lemma StripeMapsCapacity(p: Pool, rows: nat, b: nat)
    requires p.profile == PROFILE_STRIPE && p.stripeBlocks > 0 && b >= DATA_START
    requires EqualMembers(p, rows * p.stripeBlocks) && DATA_START + rows * p.stripeBlocks < U64
    ensures MapData(p, b).Ok? <==> b - DATA_START < |DataMembers(p)| * (rows * p.stripeBlocks)
  {
    MemberLists(p);
    var ms := DataMembers(p);
    StripeThereAndBack(|ms|, p.stripeBlocks, b);
    StripeCapacity(|ms|, p.stripeBlocks, rows, b);
  }

  /** Rotating parity over n equal, stripe-aligned members maps exactly the blocks
      of n - 1 members' worth of data. */
  lemma ParityMapsCapacity(p: Pool, rows: nat, b: nat)
    requires p.profile == PROFILE_PARITY && p.stripeBlocks > 0 && b >= DATA_START && |DataMembers(p)| >= 3
    requires EqualMembers(p, rows * p.stripeBlocks) && DATA_START + rows * p.stripeBlocks < U64
    ensures MapData(p, b).Ok? <==> b - DATA_START < rows * ((|DataMembers(p)| - 1) * p.stripeBlocks)
  {
    MemberLists(p);
    var ms := DataMembers(p);
    var c := ParityCell(|ms|, p.stripeBlocks, b);
    ParityThereAndBack(|ms|, p.stripeBlocks, b);
    ParityCapacity(|ms|, p.stripeBlocks, rows, b);
  }

  /** The parity map reaches every cell of the member grid that is off its row's
      parity member and inside both members. */
  lemma ParityReachesCell(p: Pool, c: Cell) returns (b: nat)
    requires Opened(p) && p.profile == PROFILE_PARITY && p.stripeBlocks > 0 && |DataMembers(p)| >= 3
    requires c.ordinal < |DataMembers(p)| && c.block >= DATA_START
    requires var n := |DataMembers(p)|;
             var parity := ParityOrdinal(n, p.stripeBlocks, c.block);
             && c.ordinal != parity
             && DataMembers(p)[c.ordinal] < |p.members| && DataMembers(p)[parity] < |p.members|
             && c.block < Add64(DATA_START, DataBlocks(p, DataMembers(p)[c.ordinal]))
             && c.block < Add64(DATA_START, DataBlocks(p, DataMembers(p)[parity]))
    ensures b >= DATA_START
    ensures MapData(p, b) == Ok(Mapping(DataMembers(p)[c.ordinal],
                                        DataMembers(p)[ParityOrdinal(|DataMembers(p)|, p.stripeBlocks, c.block)],
                                        c.block))
  {
    b := ParityBlock(|DataMembers(p)|, p.stripeBlocks, c);
    ParityBackAndThere(|DataMembers(p)|, p.stripeBlocks, c);
  }
}
