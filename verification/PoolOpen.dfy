/** Opening an image or a pool: label validation, agreement of the members'
    labels, and the member table. */
module PoolOpen {
  import opened Bytes
  import opened Masks
  import opened PoolMap
  import L = Layout

  const POOL_MAGIC: nat := 0x504F4F4C
  const POOL_VERSION: nat := 1
  const LABEL_SIZE: nat := 824
  const PL_CHECKSUM: nat := 8
  const PL_INDEX: nat := 20

  /** A device is the blocks it holds. */
  type Device = seq<Block>
  type Label = s: seq<Byte> | |s| == 824 witness seq(824, _ => 0)

  function MemberCount(l: Label): nat { Get32(l, 16) }

  function IndexOf(l: Label): nat { Get32(l, PL_INDEX) }

  function Profile(l: Label): nat { Get32(l, 12) }

  function LogicalBlocks(l: Label): nat { Get64(l, 48) }

  function MemberTotal(l: Label, i: nat): nat
    requires i < MAX_DEVICES
  { Get64(l, 96 + 48 * i) }

  function MemberData(l: Label, i: nat): nat
    requires i < MAX_DEVICES
  { Get64(l, 104 + 48 * i) }

  function MemberIndex(l: Label, i: nat): nat
    requires i < MAX_DEVICES
  { Get32(l, 120 + 48 * i) }

  function Bits(v: nat): Mask {
    seq(32, i requires 0 <= i < 32 => v / Pow2(i) % 2 == 1)
  }

  /** mask & ~limit == 0 */
  predicate WithinLimit(v: nat, count: nat) {
    forall i :: 0 <= i < 32 && Bits(v)[i] ==> i < count
  }

  /** The first n member entries are consistent. */
  function CheckMembers(l: Label, n: nat): Rc
    requires n <= MAX_DEVICES
    decreases n, l
  {
    if n == 0 then Zero else
    var rc := CheckMembers(l, n - 1);
    if rc.Neg? then rc
    else if MemberIndex(l, n - 1) != n - 1 || MemberTotal(l, n - 1) < DATA_START
            || MemberData(l, n - 1) > MemberTotal(l, n - 1) - DATA_START then Neg(EINVAL)
    else Zero
  }

  /** `aetherfs_pool_label_validate` */
  function CheckLabel(l: Label): Rc {
    if Get32(l, 0) != POOL_MAGIC || Get32(l, 4) != POOL_VERSION then Neg(EINVAL)
    else if !L.Sealed(l, PL_CHECKSUM) then Neg(EILSEQ)
    else if MemberCount(l) == 0 || MemberCount(l) > MAX_DEVICES || IndexOf(l) >= MemberCount(l) then Neg(EINVAL)
    else if Profile(l) > PROFILE_TIERED || Get32(l, 24) == 0 then Neg(EINVAL)
    else if LogicalBlocks(l) < DATA_START || LogicalBlocks(l) != Add64(Get64(l, 56), DATA_START) then Neg(EINVAL)
    else if !WithinLimit(Get32(l, 32), MemberCount(l)) || !WithinLimit(Get32(l, 36), MemberCount(l))
            || !WithinLimit(Get32(l, 40), MemberCount(l)) || !WithinLimit(Get32(l, 44), MemberCount(l)) then Neg(EINVAL)
    else CheckMembers(l, MemberCount(l))
  }

  datatype MaybeLabel = Absent | Present(poolLabel: Label)

  function LabelOf(b: Block): Label { b[..824] }

  /** `aetherfs_member_read_pool_label` */
  function ReadLabel(dev: Device): Result<MaybeLabel> {
    if dev == [] then Err(EIO)
    else if Get32(LabelOf(dev[0]), 0) != POOL_MAGIC then Ok(Absent)
    else
      var rc := CheckLabel(LabelOf(dev[0]));
      if rc.Neg? then Err(rc.error) else Ok(Present(LabelOf(dev[0])))
  }

  /** `aetherfs_pool_label_normalize` */
  function Normalized(l: Label): Label {
    Put(Put(l, PL_CHECKSUM, 4, 0), PL_INDEX, 4, 0)
  }

  /** The label an opened pool keeps: index 0, checksum recomputed. */
  function KeptLabel(l: Label): Label {
    L.Seal(Put(l, PL_INDEX, 4, 0), PL_CHECKSUM)
  }

  /** An opened image: its label, and its members in member-index order. */
  datatype Handle = Handle(poolLabel: Label, disks: seq<Device>)

  // ----------------------------------------------------------------------- the loops

  /** The label of every device, if all have a valid one. */
  method ReadLabels(devs: seq<Device>) returns (r: Result<seq<Label>>)
    ensures r.Ok? <==> forall i :: 0 <= i < |devs| ==> HasLabel(devs[i])
    ensures r.Ok? ==> r.value == LabelsOf(devs)
  {
    hide CheckLabel, LabelOf;
    var labels: seq<Label> := [];
    for index := 0 to |devs|
      invariant |labels| == index
      invariant forall i :: 0 <= i < index ==> HasLabel(devs[i]) && labels[i] == LabelOf(devs[i][0])
    {
      var read := ReadLabel(devs[index]);
      if read.Err? {
        return Err(read.error);
      }
      if read.value.Absent? {
        return Err(EINVAL);
      }
      labels := labels + [read.value.poolLabel];
    }
    assert labels == LabelsOf(devs);
    r := Ok(labels);
  }

  predicate HasLabel(dev: Device) {
    dev != [] && ReadLabel(dev).Ok? && ReadLabel(dev).value.Present?
  }

  function LabelsOf(devs: seq<Device>): (r: seq<Label>)
    requires forall i :: 0 <= i < |devs| ==> HasLabel(devs[i])
    ensures |r| == |devs|
  {
    seq(|devs|, i requires 0 <= i < |devs| => assert HasLabel(devs[i]); LabelOf(devs[i][0]))
  }

  /** The labels describe one pool: equal but for index and checksum, of the right
      count, and with indices that form a permutation. */
  ghost predicate OnePool(labels: seq<Label>) {
    labels != [] && MemberCount(labels[0]) == |labels| && Agreeing(labels)
  }

  ghost predicate Agreeing(labels: seq<Label>)
    requires labels != []
  {
    && (forall i :: 0 <= i < |labels| ==> Normalized(labels[i]) == Normalized(labels[0]))
    && (forall i :: 0 <= i < |labels| ==> IndexOf(labels[i]) < |labels|)
    && (forall i, j :: 0 <= i < j < |labels| ==> IndexOf(labels[i]) != IndexOf(labels[j]))
  }

  /** Member i of the table is the device whose label says so. */
  ghost predicate Placed(devs: seq<Device>, labels: seq<Label>, n: nat, table: seq<Device>, seen: seq<bool>) {
    && |labels| == |devs| == |table| == |seen| && n <= |devs|
    && (forall i :: 0 <= i < n ==> IndexOf(labels[i]) < |devs| && seen[IndexOf(labels[i])] && table[IndexOf(labels[i])] == devs[i])
    && (forall k :: 0 <= k < |seen| && seen[k] ==> exists i :: 0 <= i < n && IndexOf(labels[i]) == k)
    && (forall i, j :: 0 <= i < j < n ==> IndexOf(labels[i]) != IndexOf(labels[j]))
  }

  /** The middle loop of `aetherfs_image_open_pool`: compare each label with the
      first and give its device the place it names. */
  method PlaceDevices(devs: seq<Device>, labels: seq<Label>) returns (ok: bool, table: seq<Device>, seen: seq<bool>)
    requires |labels| == |devs| && devs != []
    ensures ok ==> Placed(devs, labels, |devs|, table, seen)
    ensures ok <==> Agreeing(labels)
  {
    hide IndexOf, Normalized;
    table := seq(|devs|, _ => []);
    seen := seq(|devs|, _ => false);
    for index := 0 to |devs|
      invariant Placed(devs, labels, index, table, seen)
      invariant forall i :: 0 <= i < index ==> Normalized(labels[i]) == Normalized(labels[0])
    {
      var at := IndexOf(labels[index]);
      if Normalized(labels[index]) != Normalized(labels[0]) {
        return false, table, seen;
      }
      if at >= |devs| || seen[at] {
        return false, table, seen;
      }
      PlaceStep(devs, labels, index, table, seen, at);
      seen := seen[at := true];
      table := table[at := devs[index]];
    }
    ok := true;
  }

  lemma PlaceStep(devs: seq<Device>, labels: seq<Label>, n: nat, table: seq<Device>, seen: seq<bool>, at: nat)
    requires Placed(devs, labels, n, table, seen) && n < |devs| && at == IndexOf(labels[n]) && at < |devs| && !seen[at]
    ensures Placed(devs, labels, n + 1, table[at := devs[n]], seen[at := true])
  {
    hide IndexOf;
    var seen' := seen[at := true];
    forall k | 0 <= k < |seen'| && seen'[k]
      ensures exists i :: 0 <= i < n + 1 && IndexOf(labels[i]) == k
    {
      if k == at {
        assert IndexOf(labels[n]) == k;
      } else {
        assert seen[k];
      }
    }
  }

  /** `aetherfs_image_open_pool` for two to eight devices: it accepts exactly the
      devices whose labels describe one pool of that many members. */
  method OpenPool(devs: seq<Device>) returns (r: Result<Handle>)
    requires 2 <= |devs| <= MAX_DEVICES
    ensures r.Ok? <==> (forall i :: 0 <= i < |devs| ==> HasLabel(devs[i])) && OnePool(LabelsOf(devs))
    ensures r.Ok? ==> IsTable(devs, r.value)
  {
    hide HasLabel, CheckLabel, IndexOf, MemberCount, Normalized, KeptLabel;
    var read := ReadLabels(devs);
    if read.Err? {
      return Err(read.error);
    }
    var labels := read.value;
    if MemberCount(labels[0]) != |devs| {
      return Err(EINVAL);
    }
    var ok, table, seen := PlaceDevices(devs, labels);
    if !ok {
      return Err(EINVAL);
    }
    for index := 0 to |devs|
      invariant forall k :: 0 <= k < index ==> seen[k]
    {
      if !seen[index] {
        PermutationIsOnto(labels, index);
        return Err(EINVAL);
      }
    }
    r := Ok(Handle(KeptLabel(labels[0]), table));
  }

  /** The opened pool holds every device at the place its label names, under the
      label the devices share. */
  ghost predicate IsTable(devs: seq<Device>, h: Handle) {
    && (forall i :: 0 <= i < |devs| ==> HasLabel(devs[i])) && devs != []
    && |h.disks| == |devs| && h.poolLabel == KeptLabel(LabelsOf(devs)[0])
    && forall i :: 0 <= i < |devs| ==> IndexOf(LabelsOf(devs)[i]) < |devs| && h.disks[IndexOf(LabelsOf(devs)[i])] == devs[i]
  }

  // --------------------------------------------------------------- order independence

  /** n distinct indices below n leave none out. */
  lemma PermutationIsOnto(labels: seq<Label>, k: nat)
    requires k < |labels|
    requires forall i :: 0 <= i < |labels| ==> IndexOf(labels[i]) < |labels|
    requires forall i, j :: 0 <= i < j < |labels| ==> IndexOf(labels[i]) != IndexOf(labels[j])
    ensures exists i :: 0 <= i < |labels| && IndexOf(labels[i]) == k
  {
    hide IndexOf;
    var n := |labels|;
    var hit := set i | 0 <= i < n :: IndexOf(labels[i]);
    ImageSize(labels, n);
    var all := Below(n);
    assert hit <= all;
    if k !in hit {
      SubsetSize(hit, all - {k});
    }
    assert k in hit;
  }

  lemma {:induction false} ImageSize(labels: seq<Label>, n: nat)
    requires n <= |labels|
    requires forall i, j :: 0 <= i < j < |labels| ==> IndexOf(labels[i]) != IndexOf(labels[j])
    ensures |set i | 0 <= i < n :: IndexOf(labels[i])| == n
    decreases n
  {
    hide IndexOf;
    if n != 0 {
      ImageSize(labels, n - 1);
      var before := set i | 0 <= i < n - 1 :: IndexOf(labels[i]);
      assert IndexOf(labels[n - 1]) !in before;
      assert (set i | 0 <= i < n :: IndexOf(labels[i])) == before + {IndexOf(labels[n - 1])};
    }
  }

  function Below(n: nat): (r: set<nat>)
    ensures |r| == n && forall i :: i in r <==> 0 <= i < n
  {
    if n == 0 then {} else Below(n - 1) + {n - 1}
  }

  lemma {:induction false} SubsetSize(a: set<nat>, b: set<nat>)
    requires a <= b
    ensures |a| <= |b|
    decreases a
  {
    if a != {} {
      var x :| x in a;
      SubsetSize(a - {x}, b - {x});
    }
  }

  /** devs' lists the same devices in some order. */
  ghost predicate Reordered(devs: seq<Device>, devs': seq<Device>) {
    multiset(devs) == multiset(devs')
  }

  lemma ReorderedMember(devs: seq<Device>, devs': seq<Device>, i: nat) returns (j: nat)
    requires Reordered(devs, devs') && i < |devs'|
    ensures j < |devs| && devs[j] == devs'[i]
  {
    assert devs'[i] in multiset(devs);
    j :| 0 <= j < |devs| && devs[j] == devs'[i];
  }

  lemma ReorderedLength(devs: seq<Device>, devs': seq<Device>)
    requires Reordered(devs, devs')
    ensures |devs| == |devs'|
  {
    assert |multiset(devs)| == |devs|;
  }

  lemma NormalizedCount(a: Label, b: Label)
    requires Normalized(a) == Normalized(b)
    ensures MemberCount(a) == MemberCount(b)
    ensures KeptLabel(a) == KeptLabel(b)
  {
    GetFrame(a, Normalized(a), 16, 4);
    GetFrame(b, Normalized(b), 16, 4);
    var x, y := Put(a, PL_INDEX, 4, 0), Put(b, PL_INDEX, 4, 0);
    forall i | 0 <= i < |x| && !(PL_CHECKSUM <= i < PL_CHECKSUM + 4)
      ensures x[i] == y[i]
    {
      SameUnsealed(a, b, i);
    }
    PutOverwrites(x, y, PL_CHECKSUM, 4, 0);
    PutOverwrites(x, y, PL_CHECKSUM, 4, L.SelfChecksum(x, PL_CHECKSUM));
  }

  /** Labels with one normal form agree outside index and checksum. */
  lemma SameUnsealed(a: Label, b: Label, i: nat)
    requires Normalized(a) == Normalized(b) && i < LABEL_SIZE && !(PL_CHECKSUM <= i < PL_CHECKSUM + 4)
    ensures Put(a, PL_INDEX, 4, 0)[i] == Put(b, PL_INDEX, 4, 0)[i]
  {
    if PL_INDEX <= i < PL_INDEX + 4 {
      PutBytes(a, PL_INDEX, 4, 0, i);
      PutBytes(b, PL_INDEX, 4, 0, i);
    } else {
      assert Normalized(a)[i] == Put(a, PL_CHECKSUM, 4, 0)[i] == a[i];
      assert Normalized(b)[i] == Put(b, PL_CHECKSUM, 4, 0)[i] == b[i];
    }
  }

  lemma {:induction false} PutBytes(b: seq<Byte>, off: nat, n: nat, v: nat, i: nat)
    requires off + n <= |b| && off <= i < off + n && v == 0
    ensures Put(b, off, n, v)[i] == 0
    decreases n
  {
    if i != off {
      PutBytes(b, off + 1, n - 1, v / 256, i);
    }
  }

  /** The order in which devices are listed does not matter: if one order opens, so
      does every other, with the same member table and the same label. */
  lemma OpenOrderIrrelevant(devs: seq<Device>, devs': seq<Device>, h: Handle, h': Handle)
    requires Reordered(devs, devs') && (forall i :: 0 <= i < |devs| ==> HasLabel(devs[i])) && OnePool(LabelsOf(devs))
    requires IsTable(devs, h) && IsTable(devs', h')
    ensures h == h'
  {
    hide HasLabel, IndexOf, MemberCount, KeptLabel, Normalized;
    ReorderedLength(devs, devs');
    var n := |devs|;
    var labels := LabelsOf(devs);
    forall k | 0 <= k < n
      ensures h.disks[k] == h'.disks[k]
    {
      PermutationIsOnto(labels, k);
      var i :| 0 <= i < n && IndexOf(labels[i]) == k;
      assert Reordered(devs', devs);
      var j := ReorderedMember(devs', devs, i);
      assert LabelsOf(devs')[j] == labels[i];
    }
    var j := ReorderedMember(devs, devs', 0);
    assert LabelsOf(devs')[0] == labels[j];
    NormalizedCount(labels[j], labels[0]);
  }

  /** Whether a list of devices describes one pool does not depend on its order. */
  lemma OnePoolOrderIrrelevant(devs: seq<Device>, devs': seq<Device>)
    requires Reordered(devs, devs') && (forall i :: 0 <= i < |devs| ==> HasLabel(devs[i])) && OnePool(LabelsOf(devs))
    ensures forall i :: 0 <= i < |devs'| ==> HasLabel(devs'[i])
    ensures OnePool(LabelsOf(devs'))
  {
    hide HasLabel, IndexOf, KeptLabel, Normalized, MemberCount;
    ReorderedLength(devs, devs');
    var labels := LabelsOf(devs);
    forall i | 0 <= i < |devs'|
      ensures HasLabel(devs'[i])
    {
      var j := ReorderedMember(devs, devs', i);
    }
    var labels' := LabelsOf(devs');
    forall i | 0 <= i < |devs'|
      ensures Normalized(labels'[i]) == Normalized(labels[0]) && IndexOf(labels'[i]) < |labels'|
    {
      var j := ReorderedMember(devs, devs', i);
      assert labels'[i] == labels[j];
    }
    NormalizedCount(labels'[0], labels[0]);
    forall i, j | 0 <= i < j < |labels'|
      ensures IndexOf(labels'[i]) != IndexOf(labels'[j])
    {
      DistinctReordered(devs, devs', i, j);
    }
  }

  lemma DistinctReordered(devs: seq<Device>, devs': seq<Device>, i: nat, j: nat)
    requires Reordered(devs, devs') && (forall k :: 0 <= k < |devs| ==> HasLabel(devs[k])) && OnePool(LabelsOf(devs))
    requires forall k :: 0 <= k < |devs'| ==> HasLabel(devs'[k])
    requires i < j < |devs'|
    ensures IndexOf(LabelsOf(devs')[i]) != IndexOf(LabelsOf(devs')[j])
  {
    hide HasLabel, IndexOf, KeptLabel, Normalized, MemberCount;
    var a := ReorderedMember(devs, devs', i);
    var b := ReorderedMember(devs, devs', j);
    if a == b {
      TwiceInOne(devs', i, j);
      b := SecondPlace(devs, devs'[i], a);
    }
    assert a != b && LabelsOf(devs)[a] == LabelsOf(devs')[i] && LabelsOf(devs)[b] == LabelsOf(devs')[j];
  }

  lemma TwiceInOne(s: seq<Device>, i: nat, j: nat)
    requires i < j < |s| && s[i] == s[j]
    ensures multiset(s)[s[i]] >= 2
  {
    assert s == s[..j] + [s[j]] + s[j + 1..];
    assert s[i] in s[..j];
  }

  lemma SecondPlace(s: seq<Device>, x: Device, a: nat) returns (c: nat)
    requires a < |s| && s[a] == x && multiset(s)[x] >= 2
    ensures c < |s| && c != a && s[c] == x
  {
    var l, r := s[..a], s[a + 1..];
    assert s == l + [s[a]] + r;
    if x in l {
      c :| 0 <= c < |l| && l[c] == x;
    } else {
      assert x in multiset(r);
      var k :| 0 <= k < |r| && r[k] == x;
      c := a + 1 + k;
    }
  }
}
