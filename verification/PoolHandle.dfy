/** From an opened pool to the block layer: the label an opened pool keeps is valid,
    and so is the address map it describes. */
module PoolHandle {
  import opened Bytes
  import opened Masks
  import opened PoolMap
  import opened PoolBlocks
  import opened PoolOpen
  import L = Layout

  /** A label and what it is turned into have this field in common. */
  predicate Untouched(off: nat, n: nat) {
    off + n <= 824 && (off + n <= PL_CHECKSUM || PL_CHECKSUM + 4 <= off) && (off + n <= PL_INDEX || PL_INDEX + 4 <= off)
  }

  lemma FieldKept(l: Label, off: nat, n: nat)
    requires Untouched(off, n)
    ensures Get(KeptLabel(l), off, n) == Get(l, off, n)
  {
    hide Get, Put, L.SelfChecksum;
    GetFrame(KeptLabel(l), l, off, n);
  }

  lemma KeptLabelHead(l: Label)
    ensures var c := KeptLabel(l);
            && L.Sealed(c, PL_CHECKSUM) && IndexOf(c) == 0
            && Get32(c, 0) == Get32(l, 0) && Get32(c, 4) == Get32(l, 4) && MemberCount(c) == MemberCount(l) && Profile(c) == Profile(l)
            && Get32(c, 24) == Get32(l, 24) && LogicalBlocks(c) == LogicalBlocks(l) && Get64(c, 56) == Get64(l, 56)
            && Get32(c, 32) == Get32(l, 32) && Get32(c, 36) == Get32(l, 36) && Get32(c, 40) == Get32(l, 40) && Get32(c, 44) == Get32(l, 44)
  {
    hide Get, Put, L.Sealed, L.SelfChecksum, KeptLabel;
    KeptLabelSealed(l);
    FieldKept(l, 0, 4);
    FieldKept(l, 4, 4);
    FieldKept(l, 12, 4);
    FieldKept(l, 16, 4);
    FieldKept(l, 24, 4);
    FieldKept(l, 32, 4);
    FieldKept(l, 36, 4);
    FieldKept(l, 40, 4);
    FieldKept(l, 44, 4);
    FieldKept(l, 48, 8);
    FieldKept(l, 56, 8);
  }

  lemma KeptLabelSealed(l: Label)
    ensures L.Sealed(KeptLabel(l), PL_CHECKSUM) && IndexOf(KeptLabel(l)) == 0
  {
    hide Get, Put, L.Sealed, L.SelfChecksum;
    var indexed := Put(l, PL_INDEX, 4, 0);
    Pow256Values();
    L.SealSeals(indexed, PL_CHECKSUM);
    GetPut(l, PL_INDEX, 4, 0);
    GetFrame(KeptLabel(l), indexed, PL_INDEX, 4);
  }

  lemma MemberKept(l: Label, i: nat)
    requires i < MAX_DEVICES
    ensures var c := KeptLabel(l);
            MemberTotal(c, i) == MemberTotal(l, i) && MemberData(c, i) == MemberData(l, i) && MemberIndex(c, i) == MemberIndex(l, i)
  {
    hide Get, Put, KeptLabel;
    FieldKept(l, 96 + 48 * i, 8);
    FieldKept(l, 104 + 48 * i, 8);
    FieldKept(l, 120 + 48 * i, 4);
  }

  /** The member entries are consistent one by one. */
  lemma {:induction false} MembersExact(l: Label, n: nat)
    requires n <= MAX_DEVICES
    ensures CheckMembers(l, n).Zero? <==>
            forall i :: 0 <= i < n ==> MemberIndex(l, i) == i && DATA_START <= MemberTotal(l, i) && MemberData(l, i) <= MemberTotal(l, i) - DATA_START
    decreases n
  {
    hide MemberIndex, MemberTotal, MemberData;
    if n != 0 {
      MembersExact(l, n - 1);
    }
  }

  /** Clearing the index and sealing again keeps a label valid. */
  lemma KeptLabelValid(l: Label)
    requires CheckLabel(l).Zero?
    ensures CheckLabel(KeptLabel(l)).Zero?
  {
    hide KeptLabel, MemberCount, IndexOf, Profile, LogicalBlocks, L.Sealed, Get32, Get64, CheckMembers, WithinLimit, MemberTotal, MemberData, MemberIndex;
    KeptLabelHead(l);
    forall i | 0 <= i < MAX_DEVICES
      ensures MemberTotal(KeptLabel(l), i) == MemberTotal(l, i) && MemberData(KeptLabel(l), i) == MemberData(l, i)
      ensures MemberIndex(KeptLabel(l), i) == MemberIndex(l, i)
    {
      MemberKept(l, i);
    }
    MembersExact(l, MemberCount(l));
    MembersExact(KeptLabel(l), MemberCount(l));
  }

  /** The address map of an opened pool; members are as large as the label says. */
  function PoolOf(h: Handle): Pool {
    var l := h.poolLabel;
    Pool(Profile(l), |h.disks|, Get32(l, 24), Bits(Get32(l, 32)), Bits(Get32(l, 36)), Bits(Get32(l, 40)),
         seq(8, i requires 0 <= i < 8 => Member(MemberTotal(l, i), MemberData(l, i), if i < |h.disks| then MemberTotal(l, i) else 0)))
  }

  /** Every pool that opens has a valid label of its own, member sizes the address
      map may rely on, and one device for every member. */
  lemma OpenedPool(devs: seq<Device>, h: Handle)
    requires 2 <= |devs| <= MAX_DEVICES && (forall i :: 0 <= i < |devs| ==> HasLabel(devs[i])) && OnePool(LabelsOf(devs)) && IsTable(devs, h)
    ensures CheckLabel(h.poolLabel).Zero? && MemberCount(h.poolLabel) == |h.disks|
    ensures Attached(PoolOf(h), h.disks) && SizesValid(PoolOf(h))
    ensures PoolOf(h).profile <= PROFILE_TIERED && PoolOf(h).stripeBlocks > 0
  {
    hide KeptLabel, Get32, Get64, L.Sealed, WithinLimit, MemberIndex, CheckMembers, Normalized, Bits;
    var l := LabelsOf(devs)[0];
    assert HasLabel(devs[0]);
    KeptLabelValid(l);
    KeptLabelHead(l);
    MembersExact(h.poolLabel, MemberCount(h.poolLabel));
  }
}
