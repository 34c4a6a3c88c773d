/** A single-device image from device to verdict: open, load, validate, scrub. */
module ImageCheck {
  import opened Bytes
  import opened Masks
  import opened PoolMap
  import opened PoolBlocks
  import opened PoolRefinement
  import opened PoolOpen
  import R = Redundancy
  import G = Geometry
  import I = Intervals
  import opened V = Validator
  import opened Loader

  /** `aetherfs_image_read_block` of an opened pool. */
  function ReaderOf(p: Pool, d: Disks, bad: set<(nat, nat)>): Reader
    requires Attached(p, d)
  {
    (b: nat) => ReadBlock(p, d, bad, b)
  }

  /** `aetherfs_image_load` then `aetherfs_image_validate` */
  function CheckOpened(p: Pool, d: Disks, bad: set<(nat, nat)>, logicalBlocks: nat): Result<Report>
    requires Attached(p, d)
  {
    var rd := ReaderOf(p, d, bad);
    var img := Load(rd, logicalBlocks, p.memberCount);
    if img.Err? then Err(img.error) else
    LoadParts(rd, logicalBlocks, p.memberCount);
    var a := Validate(rd, img.value);
    if a.Err? then Err(a.error) else
    var rc := R.Scrub(p, d, bad, a.value.used);
    if rc.Neg? then Err(rc.error) else Ok(a.value.report)
  }

  /** An opened single-device image. */
  datatype Single = Single(pool: Pool, blocks: nat)

  /** Byte offsets of the device are valid `off_t` values. */
  const DEVICE_MAX: nat := ADDRESSABLE / 2

  /** The addressing part of a label, for one member whose device has n blocks. */
  function LabelPool(l: Label, n: nat): Pool {
    Pool(Profile(l), 1, Get32(l, 24), Bits(Get32(l, 32)), Bits(Get32(l, 36)), Bits(Get32(l, 40)),
         seq(8, i requires 0 <= i < 8 => Member(MemberTotal(l, i), MemberData(l, i), if i == 0 then n else 0)))
  }

  /** `aetherfs_image_synthesize_single_label` */
  function DefaultPool(n: nat): Pool {
    Pool(PROFILE_SINGLE, 1, 1, Bits(1), Bits(1), Bits(1),
         seq(8, i requires 0 <= i < 8 => if i == 0 then Member(n, (n - 8) % U64, n) else Member(0, 0, 0)))
  }

  /** `aetherfs_image_open` */
  function OpenImage(dev: Device): Result<Single> {
    var l := ReadLabel(dev);
    if l.Err? then Err(l.error)
    else if l.value.Absent? then Ok(Single(DefaultPool(|dev|), |dev|))
    else if MemberCount(l.value.poolLabel) != 1 then Err(EXDEV)
    else Ok(Single(LabelPool(l.value.poolLabel, |dev|), LogicalBlocks(l.value.poolLabel)))
  }

  /** An image opened from one device or from several. */
  datatype AnyImage = One(single: Single) | Many(handle: Handle)

  /** `aetherfs_image_open_pool`: the number of devices decides how they open. */
  method OpenMembers(devs: seq<Device>) returns (r: Result<AnyImage>)
    ensures |devs| == 0 || |devs| > MAX_DEVICES ==> r == Err(EINVAL)
    ensures |devs| == 1 ==>
              r == (if OpenImage(devs[0]).Ok? then Ok(One(OpenImage(devs[0]).value)) else Err(OpenImage(devs[0]).error))
    ensures 2 <= |devs| <= MAX_DEVICES ==>
              && (r.Ok? <==> (forall i :: 0 <= i < |devs| ==> HasLabel(devs[i])) && OnePool(LabelsOf(devs)))
              && (r.Ok? ==> r.value.Many? && IsTable(devs, r.value.handle))
  {
    hide OpenImage, HasLabel, OnePool, IsTable, LabelsOf;
    if |devs| == 0 || |devs| > MAX_DEVICES {
      return Err(EINVAL);
    }
    if |devs| == 1 {
      var single := OpenImage(devs[0]);
      return if single.Ok? then Ok(One(single.value)) else Err(single.error);
    }
    var pool := OpenPool(devs);
    r := if pool.Ok? then Ok(Many(pool.value)) else Err(pool.error);
  }

  lemma OpenedAttached(dev: Device)
    requires |dev| < DEVICE_MAX && OpenImage(dev).Ok?
    ensures Attached(OpenImage(dev).value.pool, [dev]) && OpenImage(dev).value.pool.memberCount == 1
  {
    hide ReadLabel, Bits;
  }

  /** open, load, validate and scrub of one device */
  function CheckDevice(dev: Device): Result<Report>
    requires |dev| < DEVICE_MAX
  {
    var o := OpenImage(dev);
    if o.Err? then Err(o.error) else
    OpenedAttached(dev);
    CheckOpened(o.value.pool, [dev], {}, o.value.blocks)
  }

  // ------------------------------------------------------- one member is a flat array

  /** The data blocks of a one-member pool that its map and its device reach. */
  function Limit(p: Pool, n: nat): nat
    requires Opened(p)
  {
    var size := if p.profile == PROFILE_MIRROR then n
                else if p.profile == PROFILE_SINGLE || p.profile == PROFILE_TIERED then DATA_START + DataBlocks(p, 0)
                else if p.profile == PROFILE_STRIPE && p.stripeBlocks > 0 then Add64(DATA_START, DataBlocks(p, 0))
                else 0;
    if size < n then size else n
  }

  predicate Reaches(p: Pool, n: nat, b: nat)
    requires Opened(p)
  {
    if b < DATA_START then b < n else b < Limit(p, n)
  }

  lemma OneMember(p: Pool)
    requires Opened(p) && p.memberCount == 1
    ensures DataMembers(p) == [0] && MetadataMembers(p) == [0] && LogMembers(p) == [0]
  {
    MemberLists(p);
    OnlyMemberZero(DataMembers(p));
    OnlyMemberZero(MetadataMembers(p));
    OnlyMemberZero(LogMembers(p));
  }

  lemma OneMemberMaps(p: Pool, b: nat)
    requires Opened(p) && p.memberCount == 1 && b >= DATA_START
    ensures MapData(p, b).Ok? ==> MapData(p, b).value == Mapping(0, NO_PARITY, b)
    ensures forall n: nat :: b < n ==> (MapData(p, b).Ok? <==> Reaches(p, n, b))
  {
    hide Effective;
    OneMember(p);
    if p.profile == PROFILE_SINGLE || p.profile == PROFILE_TIERED {
      assert LinearFrom(p, [0], 0, b - DATA_START) ==
             if b - DATA_START < DataBlocks(p, 0) then Ok(Mapping(0, NO_PARITY, b)) else Err(ERANGE);
    } else if p.profile == PROFILE_STRIPE && p.stripeBlocks > 0 {
      OneStripe(p.stripeBlocks, b);
    }
  }

  lemma OneStripe(s: nat, b: nat)
    requires s > 0 && b >= DATA_START
    ensures G.StripeCell(1, s, b) == G.Cell(0, b)
  {
    DivMod(b - DATA_START, s);
  }

  /** A one-member pool reads, for any block number, the cell its byte offset reaches. */
  lemma SingleReadsExact(p: Pool, dev: Device, b: nat)
    requires Attached(p, [dev]) && p.memberCount == 1
    ensures ReadBlock(p, [dev], {}, b).Ok? <==>
            (b < DATA_START || MapData(p, b).Ok?) && b % ADDRESSABLE < ADDRESSABLE / 2 && b % ADDRESSABLE < |dev|
    ensures ReadBlock(p, [dev], {}, b).Ok? ==> ReadBlock(p, [dev], {}, b) == Ok(dev[b % ADDRESSABLE])
  {
    hide MapData, Effective;
    OneMember(p);
    CellOfExact(b);
    if b < DATA_START {
      assert ReadFirst(p, [dev], {}, [0], 0, b) == if b < |dev| then Ok(dev[b]) else Err(EIO);
    } else {
      OneMemberMaps(p, b);
    }
  }

  /** A one-member pool reads and writes its device block for block. */
  lemma SingleReads(p: Pool, dev: Device, b: nat)
    requires Attached(p, [dev]) && p.memberCount == 1 && |dev| < DEVICE_MAX && b < DEVICE_MAX
    ensures ReadBlock(p, [dev], {}, b).Ok? <==> Reaches(p, |dev|, b)
    ensures Reaches(p, |dev|, b) ==> b < |dev| && ReadBlock(p, [dev], {}, b) == Ok(dev[b])
  {
    hide MapData, Effective;
    OneMember(p);
    CellOfExact(b);
    if b < DATA_START {
      assert ReadFirst(p, [dev], {}, [0], 0, b) == if b < |dev| then Ok(dev[b]) else Err(EIO);
    } else {
      OneMemberMaps(p, b);
    }
  }

  lemma SingleWrites(p: Pool, dev: Device, b: nat, buf: Block)
    requires Attached(p, [dev]) && p.memberCount == 1 && |dev| < DEVICE_MAX && Reaches(p, |dev|, b)
    ensures b < |dev| && WriteBlock(p, [dev], true, Faults({}, map[]), b, buf) == Outcome([SetBlock(dev, b, buf)], Zero)
  {
    hide MapData, Effective;
    OneMember(p);
    SingleReads(p, dev, b);
    CellOfExact(b);
    var w := MemberWrite(p, [dev], map[], 0, b, buf);
    assert w == Outcome([SetBlock(dev, b, buf)], Zero);
    assert WriteReplicas(p, [dev], map[], [0], 0, b, buf) == w;
    if b >= DATA_START {
      OneMemberMaps(p, b);
      if p.profile == PROFILE_PARITY {
        NoParityAlone(p, b);
      }
    }
  }

  lemma NoParityAlone(p: Pool, b: nat)
    requires Opened(p) && p.memberCount == 1 && b >= DATA_START && p.profile == PROFILE_PARITY
    ensures MapData(p, b).Err?
  {
    OneMember(p);
  }

  function SetBlock(dev: Device, b: nat, v: Block): (r: Device)
    requires b < |dev|
    ensures |r| == |dev|
  {
    dev[b := v]
  }

  /** A single-device image needs no redundancy scrub. */
  lemma SingleScrub(p: Pool, dev: Device, used: seq<I.Interval>)
    requires Attached(p, [dev]) && p.memberCount == 1
    ensures R.Scrub(p, [dev], {}, used) == if p.profile == PROFILE_PARITY then Neg(EINVAL) else Zero
  {
    hide Effective;
    OneMember(p);
    SingleBootstrap(p, dev, SUPER_BLOCK);
  }

  lemma {:induction false} SingleBootstrap(p: Pool, dev: Device, b: nat)
    requires Attached(p, [dev]) && p.memberCount == 1 && b <= DATA_START
    ensures R.ScrubBootstrap(p, [dev], {}, b) == Zero
    decreases DATA_START - b
  {
    hide Effective;
    if b < DATA_START {
      OneMember(p);
      SingleBootstrap(p, dev, b + 1);
    }
  }
}
