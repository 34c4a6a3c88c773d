/** Pool labels made from a description of the pool: exactly these pass, and devices
    that carry them open, in every order, as the pool described. */
module PoolLabels {
  import opened Bytes
  import opened Records
  import L = Layout
  import opened PoolMap
  import opened PoolOpen
  import opened PoolHandle
  import opened ImageCheck

  /** What a label says: profile, stripe size, role masks as numbers, logical data
      blocks, and total and data blocks of every member. */
  datatype Plan = Plan(profile: nat, stripe: nat, metadata: nat, data: nat, log: nat, cache: nat, logicalData: nat, sizes: seq<MemberSize>)

  datatype MemberSize = MemberSize(total: nat, data: nat)

  /** One to eight members, each with room for the bootstrap area and its data; masks
      that name only members; a size that fits 64 bits. */
  ghost predicate Good(p: Plan) {
    && 1 <= |p.sizes| <= 8 && p.profile <= 4 && 0 < p.stripe < U32
    && p.metadata < Pow2(|p.sizes|) && p.data < Pow2(|p.sizes|) && p.log < Pow2(|p.sizes|) && p.cache < Pow2(|p.sizes|)
    && p.logicalData + 8 < U64
    && forall i :: 0 <= i < |p.sizes| ==> 8 + p.sizes[i].data <= p.sizes[i].total < U64
  }

  function Head(p: Plan, index: nat): seq<Field> {
    [Field(0, 4, 0x504F4F4C), Field(4, 4, 1), Field(12, 4, p.profile), Field(16, 4, |p.sizes|), Field(20, 4, index),
     Field(24, 4, p.stripe), Field(32, 4, p.metadata), Field(36, 4, p.data), Field(40, 4, p.log), Field(44, 4, p.cache),
     Field(48, 8, p.logicalData + 8), Field(56, 8, p.logicalData)]
  }

  /** The entries of the first n members. */
  function MemberEntries(sizes: seq<MemberSize>, n: nat): (r: seq<Field>)
    requires n <= |sizes|
    ensures |r| == 3 * n
    decreases n
  {
    if n == 0 then []
    else MemberEntries(sizes, n - 1) +
         [Field(96 + 48 * (n - 1), 8, sizes[n - 1].total), Field(104 + 48 * (n - 1), 8, sizes[n - 1].data), Field(120 + 48 * (n - 1), 4, n - 1)]
  }

  function Fields(p: Plan, index: nat): seq<Field> {
    Head(p, index) + MemberEntries(p.sizes, |p.sizes|)
  }

  lemma {:induction false} EntryFields(sizes: seq<MemberSize>, n: nat, i: nat)
    requires i < n <= |sizes|
    ensures var e := MemberEntries(sizes, n);
            && e[3 * i] == Field(96 + 48 * i, 8, sizes[i].total) && e[3 * i + 1] == Field(104 + 48 * i, 8, sizes[i].data)
            && e[3 * i + 2] == Field(120 + 48 * i, 4, i)
    decreases n
  {
    if i < n - 1 {
      EntryFields(sizes, n - 1, i);
    }
  }

  lemma {:induction false} EntriesInOrder(sizes: seq<MemberSize>, n: nat)
    requires n <= |sizes| && n <= 8
    ensures InOrder(MemberEntries(sizes, n)) && Fits(MemberEntries(sizes, n), 824)
    ensures n > 0 ==> MemberEntries(sizes, n)[0].off == 96 && MemberEntries(sizes, n)[3 * n - 1].off == 72 + 48 * n && MemberEntries(sizes, n)[3 * n - 1].n == 4
    decreases n
  {
    if n > 0 {
      EntriesInOrder(sizes, n - 1);
    }
  }

  lemma FieldsInOrder(p: Plan, index: nat)
    requires |p.sizes| <= 8
    ensures InOrder(Fields(p, index)) && Fits(Fields(p, index), 824)
  {
    var e, h := MemberEntries(p.sizes, |p.sizes|), Head(p, index);
    EntriesInOrder(p.sizes, |p.sizes|);
    var fs := Fields(p, index);
    forall i | 0 <= i < |fs| - 1
      ensures fs[i].off + fs[i].n <= fs[i + 1].off
    {
      if i >= 12 {
        assert fs[i] == e[i - 12] && fs[i + 1] == e[i - 11];
      } else if i == 11 {
        assert fs[12] == e[0];
      }
    }
  }

  /** The label of member `index`, over a label whose other bytes (uuids, flags, classes)
      do not matter. */
  function LabelFor(base: Label, p: Plan, index: nat): Label
    requires |p.sizes| <= 8
  {
    FieldsInOrder(p, index);
    L.Seal(Write(base, Fields(p, index)), PL_CHECKSUM)
  }

  // ---------------------------------------------------------------------- reading back

  /** The label says what the plan says. */
  ghost predicate Says(l: Label, p: Plan, index: nat) {
    && |p.sizes| <= 8
    && Get32(l, 0) == 0x504F4F4C && Get32(l, 4) == 1 && Profile(l) == p.profile && MemberCount(l) == |p.sizes| && IndexOf(l) == index
    && Get32(l, 24) == p.stripe && Get32(l, 32) == p.metadata && Get32(l, 36) == p.data && Get32(l, 40) == p.log && Get32(l, 44) == p.cache
    && LogicalBlocks(l) == p.logicalData + 8 && Get64(l, 56) == p.logicalData
    && forall i :: 0 <= i < |p.sizes| ==>
                     MemberTotal(l, i) == p.sizes[i].total && MemberData(l, i) == p.sizes[i].data && MemberIndex(l, i) == i
  }

  lemma FieldBack(base: Label, p: Plan, index: nat, k: nat)
    requires |p.sizes| <= 8 && k < |Fields(p, index)| && Fields(p, index)[k].v < Pow256(Fields(p, index)[k].n)
    requires Fields(p, index)[k].off != PL_CHECKSUM
    ensures var f := Fields(p, index)[k]; f.off + f.n <= 824 && Get(LabelFor(base, p, index), f.off, f.n) == f.v
  {
    hide Get, Put, Write, L.SelfChecksum, Fields;
    FieldsInOrder(p, index);
    var fs := Fields(p, index);
    var w := Write(base, fs);
    WriteGets(base, fs, k);
    L.SealSeals(w, PL_CHECKSUM);
    ChecksumApart(p, index, k);
    GetFrame(LabelFor(base, p, index), w, fs[k].off, fs[k].n);
  }

  lemma ChecksumApart(p: Plan, index: nat, k: nat)
    requires |p.sizes| <= 8 && k < |Fields(p, index)|
    ensures var f := Fields(p, index)[k]; f.off + f.n <= PL_CHECKSUM || PL_CHECKSUM + 4 <= f.off
  {
    if k >= 12 {
      var i := (k - 12) / 3;
      EntryFields(p.sizes, |p.sizes|, i);
      assert k - 12 == 3 * i || k - 12 == 3 * i + 1 || k - 12 == 3 * i + 2;
    }
  }

  lemma LabelHead(base: Label, p: Plan, index: nat)
    requires Good(p) && index < |p.sizes|
    ensures var l := LabelFor(base, p, index);
            && L.Sealed(l, PL_CHECKSUM)
            && Get32(l, 0) == 0x504F4F4C && Get32(l, 4) == 1 && Profile(l) == p.profile && MemberCount(l) == |p.sizes| && IndexOf(l) == index
            && Get32(l, 24) == p.stripe && Get32(l, 32) == p.metadata && Get32(l, 36) == p.data && Get32(l, 40) == p.log && Get32(l, 44) == p.cache
            && LogicalBlocks(l) == p.logicalData + 8 && Get64(l, 56) == p.logicalData
  {
    hide Get, Put, Write, L.SelfChecksum, L.Sealed, LabelFor, Good, Pow2;
    HeadValues(p, index);
    LabelSealed(base, p, index);
    var fs, h := Fields(p, index), Head(p, index);
    forall k | 0 <= k < 12
      ensures var f := h[k]; f.off + f.n <= 824 && Get(LabelFor(base, p, index), f.off, f.n) == f.v
    {
      assert fs[k] == h[k];
      FieldBack(base, p, index, k);
    }
    assert h[0].off == 0 && h[1].off == 4 && h[2].off == 12 && h[3].off == 16 && h[4].off == 20 && h[5].off == 24;
    assert h[6].off == 32 && h[7].off == 36 && h[8].off == 40 && h[9].off == 44 && h[10].off == 48 && h[11].off == 56;
  }

  lemma LabelSealed(base: Label, p: Plan, index: nat)
    requires |p.sizes| <= 8
    ensures L.Sealed(LabelFor(base, p, index), PL_CHECKSUM)
  {
    hide Get, Put, Write, L.SelfChecksum, L.Sealed, Fields, L.Seal;
    FieldsInOrder(p, index);
    L.SealSeals(Write(base, Fields(p, index)), PL_CHECKSUM);
  }

  lemma HeadValues(p: Plan, index: nat)
    requires Good(p) && index < |p.sizes|
    ensures |p.sizes| <= 8 && |Head(p, index)| == 12
    ensures forall k :: 0 <= k < 12 ==> Head(p, index)[k].v < Pow256(Head(p, index)[k].n) && Head(p, index)[k].off != PL_CHECKSUM
  {
    Pow256Values();
    SmallPow(|p.sizes|);
  }

  lemma SmallPow(n: nat)
    requires n <= 8
    ensures Pow2(n) <= 256
  {
    assert Pow2(0) == 1;
    assert Pow2(8) == 256;
    if n < 8 {
      PowGrows(n, 8);
    }
  }

  lemma {:induction false} PowGrows(i: nat, j: nat)
    requires i <= j
    ensures Pow2(i) <= Pow2(j)
    decreases j
  {
    if i < j {
      PowGrows(i, j - 1);
    }
  }

  lemma MemberFields(p: Plan, index: nat, i: nat)
    requires i < |p.sizes|
    ensures var fs := Fields(p, index);
            && |fs| == 12 + 3 * |p.sizes| && fs[12 + 3 * i] == Field(96 + 48 * i, 8, p.sizes[i].total)
            && fs[12 + 3 * i + 1] == Field(104 + 48 * i, 8, p.sizes[i].data) && fs[12 + 3 * i + 2] == Field(120 + 48 * i, 4, i)
  {
    hide MemberEntries;
    EntryFields(p.sizes, |p.sizes|, i);
    var fs, e := Fields(p, index), MemberEntries(p.sizes, |p.sizes|);
    assert fs[12 + 3 * i] == e[3 * i] && fs[12 + 3 * i + 1] == e[3 * i + 1] && fs[12 + 3 * i + 2] == e[3 * i + 2];
  }

  lemma LabelMembers(base: Label, p: Plan, index: nat, i: nat)
    requires Good(p) && index < |p.sizes| && i < |p.sizes|
    ensures var l := LabelFor(base, p, index);
            MemberTotal(l, i) == p.sizes[i].total && MemberData(l, i) == p.sizes[i].data && MemberIndex(l, i) == i
  {
    hide Get, Put, Write, LabelFor, Fields, Pow2;
    Pow256Values();
    MemberFields(p, index, i);
    FieldBack(base, p, index, 12 + 3 * i);
    FieldBack(base, p, index, 12 + 3 * i + 1);
    FieldBack(base, p, index, 12 + 3 * i + 2);
  }

  lemma LabelSays(base: Label, p: Plan, index: nat)
    requires Good(p) && index < |p.sizes|
    ensures L.Sealed(LabelFor(base, p, index), PL_CHECKSUM) && Says(LabelFor(base, p, index), p, index)
  {
    hide Get, LabelFor, L.Sealed, Pow2;
    LabelHead(base, p, index);
    forall i | 0 <= i < |p.sizes|
      ensures var l := LabelFor(base, p, index);
              MemberTotal(l, i) == p.sizes[i].total && MemberData(l, i) == p.sizes[i].data && MemberIndex(l, i) == i
    {
      LabelMembers(base, p, index, i);
    }
  }

  // ------------------------------------------------------------------- the exact condition

  lemma {:induction false} BitsBelow(v: nat, n: nat, count: nat)
    requires count <= n && v < Pow2(n) && forall i :: count <= i < n ==> v / Pow2(i) % 2 == 0
    ensures v < Pow2(count)
    decreases n
  {
    if count < n {
      TopBit(v, n - 1);
      BitsBelow(v, n - 1, count);
    }
  }

  lemma TopBit(v: nat, i: nat)
    requires v < Pow2(i + 1) && v / Pow2(i) % 2 == 0
    ensures v < Pow2(i)
  {
    hide Pow2;
    PowPositive(i);
    var d := Pow2(i);
    DivFacts(v, d);
  }

  lemma PowPositive(i: nat)
    ensures Pow2(i) > 0 && Pow2(i + 1) == 2 * Pow2(i)
  {
  }

  lemma DivFacts(v: nat, d: nat)
    requires d > 0 && v < 2 * d
    ensures v / d == if v < d then 0 else 1
  {
    if v >= d {
      assert v == 1 * d + (v - d);
    }
  }

  /** A 32-bit mask names only the first count members exactly when it is below
      2^count. */
  lemma LimitExact(v: nat, count: nat)
    requires v < U32 && count <= 8
    ensures WithinLimit(v, count) <==> v < Pow2(count)
  {
    hide Pow2;
    Pow2Values();
    if WithinLimit(v, count) {
      forall i | count <= i < 32
        ensures v / Pow2(i) % 2 == 0
      {
        PowPositive(i);
        assert !Bits(v)[i];
      }
      BitsBelow(v, 32, count);
    }
    if v < Pow2(count) {
      forall i | count <= i < 32
        ensures !Bits(v)[i]
      {
        PowGrows(count, i);
        BelowQuotient(v, Pow2(i));
      }
    }
  }

  lemma BelowQuotient(v: nat, d: nat)
    requires v < d
    ensures v / d == 0
  {
  }

  /** A label whose seal matches passes exactly when it says a good plan. */
  lemma SealedExact(l: Label, p: Plan, index: nat)
    requires L.Sealed(l, PL_CHECKSUM) && Says(l, p, index)
    ensures CheckLabel(l).Zero? <==> Good(p) && index < |p.sizes|
  {
    hide Get, L.Sealed, Pow2, CheckMembers, WithinLimit;
    MembersExact(l, |p.sizes|);
    LimitExact(p.metadata, |p.sizes|);
    LimitExact(p.data, |p.sizes|);
    LimitExact(p.log, |p.sizes|);
    LimitExact(p.cache, |p.sizes|);
  }

  /** A wrong magic or version is -EINVAL, then a wrong checksum -EILSEQ, and every other
      fault -EINVAL. */
  lemma LabelErrors(l: Label)
    requires CheckLabel(l).Neg?
    ensures CheckLabel(l).error == if Get32(l, 0) == 0x504F4F4C && Get32(l, 4) == 1 && !L.Sealed(l, 8) then EILSEQ else EINVAL
  {
    hide Get, L.Sealed, WithinLimit;
    MembersError(l, if MemberCount(l) <= 8 then MemberCount(l) else 0);
  }

  lemma {:induction false} MembersError(l: Label, n: nat)
    requires n <= 8
    ensures CheckMembers(l, n).Neg? ==> CheckMembers(l, n) == Neg(EINVAL)
    decreases n
  {
    hide MemberIndex, MemberTotal, MemberData;
    if n > 0 {
      MembersError(l, n - 1);
    }
  }

  /** What reading a label answers: an empty device cannot be read, a first block without
      the magic is no label, and any other is checked. */
  lemma ReadAnswers(dev: Device)
    ensures dev == [] ==> ReadLabel(dev) == Err(EIO)
    ensures dev != [] && Get32(dev[0], 0) != 0x504F4F4C ==> ReadLabel(dev) == Ok(Absent)
    ensures dev != [] && Get32(dev[0], 0) == 0x504F4F4C ==>
              ReadLabel(dev) == if CheckLabel(dev[0][..824]).Zero? then Ok(Present(dev[0][..824])) else Err(CheckLabel(dev[0][..824]).error)
  {
    hide CheckLabel, Get;
    if dev != [] {
      GetFrame(LabelOf(dev[0]), dev[0], 0, 4);
    }
  }

  /** Made labels pass. */
  lemma MadeLabelPasses(base: Label, p: Plan, index: nat)
    requires Good(p) && index < |p.sizes|
    ensures CheckLabel(LabelFor(base, p, index)).Zero?
  {
    hide LabelFor, Says, CheckLabel, Pow2;
    LabelSays(base, p, index);
    SealedExact(LabelFor(base, p, index), p, index);
  }

  /** The plan a label says. */
  function PlanOf(l: Label): Plan
    requires MemberCount(l) <= 8
  {
    Plan(Profile(l), Get32(l, 24), Get32(l, 32), Get32(l, 36), Get32(l, 40), Get32(l, 44), Get64(l, 56),
         seq(MemberCount(l), i requires 0 <= i < 8 => MemberSize(MemberTotal(l, i), MemberData(l, i))))
  }

  lemma AcceptedSays(l: Label)
    requires CheckLabel(l).Zero?
    ensures L.Sealed(l, PL_CHECKSUM) && MemberCount(l) <= 8 && Says(l, PlanOf(l), IndexOf(l))
  {
    hide Get, L.Sealed, WithinLimit;
    MembersExact(l, MemberCount(l));
  }

  lemma HeadSaid(l: Label, p: Plan, index: nat, k: nat)
    requires Says(l, p, index) && k < 12
    ensures var f := Head(p, index)[k]; f.off + f.n <= 824 && Get(l, f.off, f.n) == f.v
  {
    hide Get;
  }

  lemma EntrySaid(l: Label, p: Plan, index: nat, k: nat)
    requires Says(l, p, index) && k < 3 * |p.sizes|
    ensures var f := MemberEntries(p.sizes, |p.sizes|)[k]; f.off + f.n <= 824 && Get(l, f.off, f.n) == f.v
  {
    hide Get, MemberEntries, Profile, MemberCount, LogicalBlocks, Get32;
    var i := k / 3;
    EntryFields(p.sizes, |p.sizes|, i);
    assert k == 3 * i || k == 3 * i + 1 || k == 3 * i + 2;
    assert MemberTotal(l, i) == p.sizes[i].total && MemberData(l, i) == p.sizes[i].data && MemberIndex(l, i) == i;
    IndexField(l, i);
  }

  lemma IndexField(l: Label, i: nat)
    requires i < 8
    ensures MemberIndex(l, i) == Get(l, 120 + 48 * i, 4)
  {
  }

  /** Such a label is the one made from its plan. */
  lemma SaysIsMade(l: Label, p: Plan, index: nat)
    requires L.Sealed(l, PL_CHECKSUM) && Says(l, p, index)
    ensures LabelFor(l, p, index) == l
  {
    hide Get, L.Sealed, L.Seal, Write, Says, Head, MemberEntries;
    SmallPlan(l, p, index);
    FieldsInOrder(p, index);
    var fs, h, e := Fields(p, index), Head(p, index), MemberEntries(p.sizes, |p.sizes|);
    HeadSize(p, index);
    forall k | 0 <= k < |fs|
      ensures Get(l, fs[k].off, fs[k].n) == fs[k].v
    {
      if k >= 12 {
        EntrySaid(l, p, index, k - 12);
      } else {
        HeadSaid(l, p, index, k);
      }
    }
    WriteSame(l, fs);
    L.SealSame(l, PL_CHECKSUM);
  }

  lemma SmallPlan(l: Label, p: Plan, index: nat)
    requires Says(l, p, index)
    ensures |p.sizes| <= 8
  {
  }

  lemma HeadSize(p: Plan, index: nat)
    ensures |Head(p, index)| == 12
  {
  }

  /** A label passes exactly when it is made from a good plan and the index of one of
      its members. */
  lemma LabelExact(l: Label)
    ensures CheckLabel(l).Zero? <==> exists p, index: nat :: Good(p) && index < |p.sizes| && l == LabelFor(l, p, index)
  {
    hide LabelFor, Says, CheckLabel, Pow2, L.Sealed, PlanOf;
    if CheckLabel(l).Zero? {
      AcceptedSays(l);
      SealedExact(l, PlanOf(l), IndexOf(l));
      SaysIsMade(l, PlanOf(l), IndexOf(l));
    }
    if exists p, index: nat :: Good(p) && index < |p.sizes| && l == LabelFor(l, p, index) {
      var p, index: nat :| Good(p) && index < |p.sizes| && l == LabelFor(l, p, index);
      MadeLabelPasses(l, p, index);
    }
  }

  // ----------------------------------------------------------------------------- opening

  /** The device carries the label of member `index`. */
  ghost predicate LabelledAs(dev: Device, base: Label, p: Plan, index: nat)
    requires |p.sizes| <= 8
  {
    dev != [] && LabelOf(dev[0]) == LabelFor(base, p, index)
  }

  lemma CarriesLabel(dev: Device, base: Label, p: Plan, index: nat)
    requires Good(p) && index < |p.sizes| && LabelledAs(dev, base, p, index)
    ensures HasLabel(dev) && IndexOf(LabelOf(dev[0])) == index && MemberCount(LabelOf(dev[0])) == |p.sizes|
  {
    hide LabelFor, CheckLabel, Good, LabelOf, Get;
    LabelSays(base, p, index);
    MadeLabelPasses(base, p, index);
  }

  /** Labels of one pool are alike apart from index and checksum. */
  lemma {:induction false} WriteApart(base: Label, fs: seq<Field>, fs': seq<Field>, k: nat)
    requires Fits(fs, 824) && Fits(fs', 824) && |fs| == |fs'| && k < 824
    requires forall i :: 0 <= i < |fs| ==>
                           fs[i].off == fs'[i].off && fs[i].n == fs'[i].n && (fs[i].v == fs'[i].v || k < fs[i].off || fs[i].off + fs[i].n <= k)
    ensures Write(base, fs)[k] == Write(base, fs')[k]
    decreases |fs|
  {
    hide Put;
    if fs != [] {
      var n := |fs| - 1;
      WriteApart(base, fs[..n], fs'[..n], k);
      PutApart(Write(base, fs[..n]), Write(base, fs'[..n]), fs[n], fs'[n], k);
    }
  }

  lemma PutApart(a: seq<Byte>, b: seq<Byte>, f: Field, f': Field, k: nat)
    requires |a| == |b| && f.off + f.n <= |a| && f.off == f'.off && f.n == f'.n && k < |a| && a[k] == b[k]
    requires f.v == f'.v || k < f.off || f.off + f.n <= k
    ensures Put(a, f.off, f.n, f.v)[k] == Put(b, f'.off, f'.n, f'.v)[k]
  {
    hide Put;
    if f.off <= k < f.off + f.n {
      PutInside(a, b, f.off, f.n, f.v, k);
    }
  }

  lemma {:induction false} PutInside(a: seq<Byte>, b: seq<Byte>, off: nat, n: nat, v: nat, k: nat)
    requires |a| == |b| && off <= k < off + n <= |a|
    ensures Put(a, off, n, v)[k] == Put(b, off, n, v)[k]
    decreases n
  {
    if k > off {
      PutInside(a, b, off + 1, n - 1, v / 256, k);
    }
  }

  lemma SameButIndex(base: Label, p: Plan, i: nat, j: nat, k: nat)
    requires |p.sizes| <= 8 && k < 824 && !(PL_CHECKSUM <= k < PL_CHECKSUM + 4) && !(PL_INDEX <= k < PL_INDEX + 4)
    ensures LabelFor(base, p, i)[k] == LabelFor(base, p, j)[k]
  {
    hide Put, Write, L.SelfChecksum;
    FieldsInOrder(p, i);
    FieldsInOrder(p, j);
    WriteApart(base, Fields(p, i), Fields(p, j), k);
    L.SealSeals(Write(base, Fields(p, i)), PL_CHECKSUM);
    L.SealSeals(Write(base, Fields(p, j)), PL_CHECKSUM);
  }

  /** Two labels normalize alike exactly when they agree outside index and checksum. */
  lemma NormalizedExact(a: Label, b: Label)
    ensures Normalized(a) == Normalized(b) <==>
            forall k :: 0 <= k < 824 && !(PL_CHECKSUM <= k < PL_CHECKSUM + 4) && !(PL_INDEX <= k < PL_INDEX + 4) ==> a[k] == b[k]
  {
    hide Put;
    var x, y := Normalized(a), Normalized(b);
    forall k | 0 <= k < 824
      ensures x[k] == (if PL_CHECKSUM <= k < PL_CHECKSUM + 4 || PL_INDEX <= k < PL_INDEX + 4 then 0 else a[k])
      ensures y[k] == (if PL_CHECKSUM <= k < PL_CHECKSUM + 4 || PL_INDEX <= k < PL_INDEX + 4 then 0 else b[k])
    {
      NormalByte(a, k);
      NormalByte(b, k);
    }
    if forall k :: 0 <= k < 824 && !(PL_CHECKSUM <= k < PL_CHECKSUM + 4) && !(PL_INDEX <= k < PL_INDEX + 4) ==> a[k] == b[k] {
      assert forall k :: 0 <= k < 824 ==> x[k] == y[k];
    }
    if x == y {
      forall k | 0 <= k < 824 && !(PL_CHECKSUM <= k < PL_CHECKSUM + 4) && !(PL_INDEX <= k < PL_INDEX + 4)
        ensures a[k] == b[k]
      {
        assert x[k] == y[k];
      }
    }
  }

  lemma NormalByte(l: Label, k: nat)
    requires k < 824
    ensures Normalized(l)[k] == if PL_CHECKSUM <= k < PL_CHECKSUM + 4 || PL_INDEX <= k < PL_INDEX + 4 then 0 else l[k]
  {
    hide Put;
    if PL_CHECKSUM <= k < PL_CHECKSUM + 4 {
      PutBytes(l, PL_CHECKSUM, 4, 0, k);
    } else if PL_INDEX <= k < PL_INDEX + 4 {
      PutBytes(Put(l, PL_CHECKSUM, 4, 0), PL_INDEX, 4, 0, k);
    }
  }

  /** at lists every index below |at| once. */
  ghost predicate Permutation(at: seq<nat>) {
    && (forall i :: 0 <= i < |at| ==> at[i] < |at|)
    && (forall i, j :: 0 <= i < j < |at| ==> at[i] != at[j])
  }

  /** Two to eight devices that carry the labels of a good plan open, listed in any
      order, and the pool is the plan's: its profile, stripe size, role masks and member
      sizes, each device at its place. */
  lemma MadePoolOpens(devs: seq<Device>, base: Label, p: Plan, at: seq<nat>, h: Handle)
    requires Good(p) && 2 <= |devs| == |p.sizes| == |at| && Permutation(at)
    requires forall i :: 0 <= i < |devs| ==> LabelledAs(devs[i], base, p, at[i])
    ensures (forall i :: 0 <= i < |devs| ==> HasLabel(devs[i])) && OnePool(LabelsOf(devs))
    ensures IsTable(devs, h) ==>
              && IsPool(p, PoolOf(h), |devs|) && LogicalBlocks(h.poolLabel) == p.logicalData + 8
              && forall i :: 0 <= i < |devs| ==> at[i] < |h.disks| && h.disks[at[i]] == devs[i]
  {
    hide LabelFor, HasLabel, IndexOf, MemberCount, Normalized, Pow2, KeptLabel, LabelOf, Says;
    forall i | 0 <= i < |devs|
      ensures HasLabel(devs[i]) && IndexOf(LabelOf(devs[i][0])) == at[i] && MemberCount(LabelOf(devs[i][0])) == |p.sizes|
    {
      CarriesLabel(devs[i], base, p, at[i]);
    }
    var labels := LabelsOf(devs);
    forall i | 0 <= i < |labels|
      ensures labels[i] == LabelFor(base, p, at[i]) && Normalized(labels[i]) == Normalized(labels[0])
    {
      assert LabelledAs(devs[i], base, p, at[i]) && LabelledAs(devs[0], base, p, at[0]);
      AlikeLabels(base, p, at[i], at[0]);
    }
    if IsTable(devs, h) {
      LabelSays(base, p, at[0]);
      KeptPool(LabelFor(base, p, at[0]), p, at[0], h);
    }
  }

  lemma AlikeLabels(base: Label, p: Plan, i: nat, j: nat)
    requires |p.sizes| <= 8
    ensures Normalized(LabelFor(base, p, i)) == Normalized(LabelFor(base, p, j))
  {
    hide LabelFor, Normalized;
    forall k | 0 <= k < 824 && !(PL_CHECKSUM <= k < PL_CHECKSUM + 4) && !(PL_INDEX <= k < PL_INDEX + 4)
      ensures LabelFor(base, p, i)[k] == LabelFor(base, p, j)[k]
    {
      SameButIndex(base, p, i, j, k);
    }
    NormalizedExact(LabelFor(base, p, i), LabelFor(base, p, j));
  }

  /** The pool is the one planned, with n members. */
  ghost predicate IsPool(p: Plan, q: Pool, n: nat) {
    && q.profile == p.profile && q.memberCount == n == |p.sizes| && q.stripeBlocks == p.stripe && |q.members| == 8 && n <= 8
    && q.metadataMask == Bits(p.metadata) && q.dataMask == Bits(p.data) && q.logMask == Bits(p.log)
    && forall i :: 0 <= i < n ==> q.members[i].total == p.sizes[i].total && q.members[i].data == p.sizes[i].data
  }

  lemma KeptPool(l: Label, p: Plan, index: nat, h: Handle)
    requires Says(l, p, index) && h.poolLabel == KeptLabel(l) && |h.disks| == |p.sizes|
    ensures IsPool(p, PoolOf(h), |h.disks|) && LogicalBlocks(h.poolLabel) == p.logicalData + 8
  {
    hide Get, KeptLabel, Bits, L.Sealed, Profile, MemberCount, IndexOf, LogicalBlocks, MemberTotal, MemberData, MemberIndex;
    KeptLabelHead(l);
    forall i | 0 <= i < |p.sizes|
      ensures MemberTotal(h.poolLabel, i) == p.sizes[i].total && MemberData(h.poolLabel, i) == p.sizes[i].data
    {
      MemberKept(l, i);
    }
  }

  /** So does a single device, and a device of a larger pool is refused on its own. */
  lemma MadeDeviceOpens(dev: Device, base: Label, p: Plan, index: nat)
    requires Good(p) && index < |p.sizes| && LabelledAs(dev, base, p, index)
    ensures |p.sizes| == 1 ==>
              && OpenImage(dev).Ok? && IsPool(p, OpenImage(dev).value.pool, 1) && OpenImage(dev).value.blocks == p.logicalData + 8
              && OpenImage(dev).value.pool.members[0].deviceBlocks == |dev|
    ensures |p.sizes| > 1 ==> OpenImage(dev) == Err(EXDEV)
  {
    hide LabelFor, CheckLabel, Get, LabelOf, Bits, L.Sealed, Pow2;
    LabelSays(base, p, index);
    MadeLabelPasses(base, p, index);
  }
}
