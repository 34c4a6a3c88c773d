/** A device opened on its own: what its blocks read, and when it passes every
    check. */
module SingleDevice {
  import opened Bytes
  import opened V = Validator
  import opened Acceptance
  import opened Loader
  import opened PoolMap
  import opened PoolBlocks
  import opened PoolOpen
  import opened ImageCheck
  import R = Redundancy

  /** The pool of a single device, opened on contents t. */
  predicate OnDevice(p: Pool, t: Device) {
    Attached(p, [t]) && p.memberCount == 1 && |t| < DEVICE_MAX
  }

  lemma OnDeviceKept(p: Pool, t: Device, t': Device)
    requires OnDevice(p, t) && |t'| == |t|
    ensures OnDevice(p, t')
  {
  }

  lemma BootstrapReached(p: Pool, n: nat, b: nat)
    requires PoolMap.Opened(p) && b < DATA_START <= n
    ensures Reaches(p, n, b)
  {
  }

  /** rd reads device dev through pool p. */
  ghost predicate Reads(rd: Reader, p: Pool, dev: Device) {
    OnDevice(p, dev) && forall b: nat :: b < DEVICE_MAX ==>
                                           (rd(b).Ok? <==> Reaches(p, |dev|, b)) && (rd(b).Ok? ==> b < |dev| && rd(b).value == dev[b])
  }

  lemma ReaderReads(p: Pool, dev: Device)
    requires OnDevice(p, dev)
    ensures Reads(ReaderOf(p, [dev], {}), p, dev)
  {
    hide ReadBlock, Reaches, PoolMap.Opened;
    forall b: nat | b < DEVICE_MAX
      ensures var r := ReadBlock(p, [dev], {}, b); (r.Ok? <==> Reaches(p, |dev|, b)) && (r.Ok? ==> b < |dev| && r.value == dev[b])
    {
      SingleReads(p, dev, b);
    }
  }

  /** Bootstrap blocks read as they stand. */
  lemma BootstrapReads(rd: Reader, p: Pool, dev: Device, b: nat)
    requires Reads(rd, p, dev) && b < DATA_START <= |dev|
    ensures rd(b) == Ok(dev[b])
  {
    hide PoolMap.Opened;
    BootstrapReached(p, |dev|, b);
    assert (rd(b).Ok? <==> Reaches(p, |dev|, b)) && (rd(b).Ok? ==> rd(b).value == dev[b]);
  }

  lemma ReservedRead(rd: Reader, p: Pool, dev: Device, b: nat)
    requires Reads(rd, p, dev) && b < DATA_START
    ensures rd(b).Ok? <==> b < |dev|
    ensures rd(b).Ok? ==> rd(b).value == dev[b]
  {
    hide PoolMap.Opened;
    assert (rd(b).Ok? <==> Reaches(p, |dev|, b)) && (rd(b).Ok? ==> rd(b).value == dev[b]);
  }

  /** Block reads of a device opened on its own. */
  function ReaderFor(dev: Device): Reader {
    if |dev| < DEVICE_MAX && OpenImage(dev).Ok? then
      OpenedAttached(dev);
      ReaderOf(OpenImage(dev).value.pool, [dev], {})
    else (b: nat) => Err(EIO)
  }

  function LoadOf(dev: Device): Result<Image> {
    if |dev| < DEVICE_MAX && OpenImage(dev).Ok? then Load(ReaderFor(dev), OpenImage(dev).value.blocks, 1) else Err(EIO)
  }

  lemma CheckOpenedSingle(p: Pool, dev: Device, logicalBlocks: nat)
    requires OnDevice(p, dev)
    ensures var rd := ReaderOf(p, [dev], {}); var img := Load(rd, logicalBlocks, 1);
            && (img.Ok? ==> Loaded(img.value))
            && (CheckOpened(p, [dev], {}, logicalBlocks).Ok? <==>
                img.Ok? && Validate(rd, img.value).Ok? && p.profile != PROFILE_PARITY)
            && (CheckOpened(p, [dev], {}, logicalBlocks).Ok? ==>
                  CheckOpened(p, [dev], {}, logicalBlocks).value == Validate(rd, img.value).value.report)
  {
    hide Load, Validate, R.Scrub, PoolMap.Opened, Loaded, ReaderOf;
    var rd := ReaderOf(p, [dev], {});
    var img := Load(rd, logicalBlocks, 1);
    if img.Ok? {
      LoadParts(rd, logicalBlocks, 1);
      if Validate(rd, img.value).Ok? {
        SingleScrub(p, dev, Validate(rd, img.value).value.used);
      }
    }
  }

  /** A device is accepted exactly when it opens, loads and validates, and is not
      labelled as a parity pool. */
  lemma CheckDeviceExact(dev: Device)
    requires |dev| < DEVICE_MAX
    ensures LoadOf(dev).Ok? ==> Loaded(LoadOf(dev).value)
    ensures CheckDevice(dev).Ok? <==>
            && OpenImage(dev).Ok? && LoadOf(dev).Ok?
            && Validate(ReaderFor(dev), LoadOf(dev).value).Ok? && OpenImage(dev).value.pool.profile != PROFILE_PARITY
    ensures OpenImage(dev).Ok? ==>
              && OnDevice(OpenImage(dev).value.pool, dev) && Reads(ReaderFor(dev), OpenImage(dev).value.pool, dev)
              && CheckDevice(dev) == CheckOpened(OpenImage(dev).value.pool, [dev], {}, OpenImage(dev).value.blocks)
  {
    hide OpenImage, Load, Validate, CheckOpened, Reads, ReadBlock, Loaded, PoolMap.Opened;
    if OpenImage(dev).Ok? {
      OpenedAttached(dev);
      CheckOpenedSingle(OpenImage(dev).value.pool, dev, OpenImage(dev).value.blocks);
      ReaderReads(OpenImage(dev).value.pool, dev);
    }
  }

  lemma OpenSame(dev: Device, dev': Device)
    requires |dev| == |dev'| && (dev != [] ==> dev[0] == dev'[0])
    ensures OpenImage(dev) == OpenImage(dev')
  {
    hide CheckLabel;
  }

  /** The report of an accepted device is its validator's. */
  lemma AcceptedReport(dev: Device)
    requires |dev| < DEVICE_MAX && OpenImage(dev).Ok? && LoadOf(dev).Ok? && Loaded(LoadOf(dev).value)
    requires Validate(ReaderFor(dev), LoadOf(dev).value).Ok? && OpenImage(dev).value.pool.profile != PROFILE_PARITY
    ensures CheckDevice(dev) == Ok(Validate(ReaderFor(dev), LoadOf(dev).value).value.report)
  {
    hide OpenImage, Validate, Load, ReadBlock, PoolMap.Opened, CheckOpened, Attached;
    OpenedAttached(dev);
    CheckOpenedSingle(OpenImage(dev).value.pool, dev, OpenImage(dev).value.blocks);
  }
}
