/** Member masks: a `uint32_t` seen as its 32 bits, least significant first. */
module Masks {

  const MAX_DEVICES: nat := 8

  type Mask = m: seq<bool> | |m| == 32 witness seq(32, _ => false)

  /** The set bits below n, in ascending order. */
  function SetBits(m: Mask, n: nat): seq<nat>
    requires n <= 32
    decreases n, m
  {
    if n == 0 then [] else if m[n - 1] then SetBits(m, n - 1) + [n - 1] else SetBits(m, n - 1)
  }

  /** The member indices a mask names. */
  function Members(m: Mask): seq<nat> {
    SetBits(m, MAX_DEVICES)
  }

  /** `aetherfs_mask_count`: the population count of all 32 bits. */
  function Count(m: Mask): nat {
    |SetBits(m, 32)|
  }

  ghost predicate Ascending(s: seq<nat>) {
    forall i, j :: 0 <= i < j < |s| ==> s[i] < s[j]
  }

  /** The ordinals of a mask enumerate each of its set bits exactly once. */
  lemma {:induction false} SetBitsEnumerate(m: Mask, n: nat)
    requires n <= 32
    ensures Ascending(SetBits(m, n))
    ensures forall i :: i in SetBits(m, n) <==> 0 <= i < n && m[i]
    decreases n
  {
    if n != 0 {
      SetBitsEnumerate(m, n - 1);
      var low := SetBits(m, n - 1);
      forall i | 0 <= i < |low|
        ensures low[i] < n - 1
      {
        assert low[i] in low;
      }
    }
  }

  lemma {:induction false} SetBitsPrefix(m: Mask, i: nat, n: nat)
    requires i <= n <= 32
    ensures SetBits(m, i) <= SetBits(m, n)
    decreases n
  {
    if i < n {
      SetBitsPrefix(m, i, n - 1);
    }
  }

  method MaskFirst(m: Mask) returns (r: int)
    ensures r == if Members(m) == [] then -1 else Members(m)[0]
  {
    for index := 0 to MAX_DEVICES
      invariant SetBits(m, index) == []
    {
      if m[index] {
        SetBitsPrefix(m, index + 1, MAX_DEVICES);
        assert SetBits(m, index + 1) == [index];
        return index;
      }
    }
    r := -1;
  }

  method MaskNth(m: Mask, ordinal: nat) returns (r: int)
    ensures r == if ordinal < |Members(m)| then Members(m)[ordinal] else -1
  {
    var left: nat := ordinal;
    for index := 0 to MAX_DEVICES
      invariant left + |SetBits(m, index)| == ordinal
    {
      if m[index] {
        if left == 0 {
          SetBitsPrefix(m, index + 1, MAX_DEVICES);
          assert SetBits(m, index + 1)[ordinal] == index;
          return index;
        }
        left := left - 1;
      }
    }
    r := -1;
  }

  /** `mask & limit`, where the limit has the low `count` bits set. */
  function Limited(m: Mask, count: nat): Mask {
    seq(32, i requires 0 <= i < 32 => m[i] && i < count)
  }

  predicate IsZero(m: Mask) {
    forall i :: 0 <= i < 32 ==> !m[i]
  }

  /** Limited to the members present, and member 0 when nothing is left. */
  function Effective(m: Mask, count: nat): Mask {
    if IsZero(Limited(m, count)) && count > 0
    then seq(32, i requires 0 <= i < 32 => i == 0)
    else Limited(m, count)
  }

  /** Over a pool of 1 to 8 members an effective mask names at least one member,
      only members that exist, and the population count counts just them. */
  lemma EffectiveMembers(m: Mask, count: nat)
    requires 1 <= count <= MAX_DEVICES
    ensures var e := Effective(m, count);
            && Members(e) != [] && Ascending(Members(e))
            && (forall i :: 0 <= i < |Members(e)| ==> Members(e)[i] < count)
            && Count(e) == |Members(e)|
  {
    var e := Effective(m, count);
    assert !IsZero(e) by {
      if IsZero(Limited(m, count)) {
        assert e[0];
      }
    }
    LowMembers(e, count);
  }

  /** The mask names one of the first count members. */
  predicate NamesOne(m: Mask, count: nat) {
    exists i :: 0 <= i < 32 && i < count && m[i]
  }

  /** Which members an effective mask names: those of the mask that are in use, or
      member 0 if there are none. */
  lemma EffectiveExact(m: Mask, count: nat)
    requires 1 <= count <= MAX_DEVICES
    ensures forall i: nat :: i in Members(Effective(m, count)) <==> if NamesOne(m, count) then i < count && m[i] else i == 0
  {
    hide SetBits;
    SetBitsEnumerate(Effective(m, count), MAX_DEVICES);
    LimitedZero(m, count);
  }

  lemma LimitedZero(m: Mask, count: nat)
    ensures IsZero(Limited(m, count)) <==> !NamesOne(m, count)
  {
    if NamesOne(m, count) {
      var i :| 0 <= i < 32 && i < count && m[i];
      assert Limited(m, count)[i];
    }
  }

  lemma LowMembers(e: Mask, count: nat)
    requires 1 <= count <= MAX_DEVICES && !IsZero(e)
    requires forall i :: count <= i < 32 ==> !e[i]
    ensures Members(e) != [] && Ascending(Members(e))
    ensures forall i :: 0 <= i < |Members(e)| ==> Members(e)[i] < count
    ensures Count(e) == |Members(e)|
  {
    SetBitsEnumerate(e, MAX_DEVICES);
    var i :| 0 <= i < 32 && e[i];
    assert i in Members(e);
    forall k | 0 <= k < |Members(e)|
      ensures Members(e)[k] < count
    {
      assert Members(e)[k] in Members(e);
    }
    NoHighBits(e, MAX_DEVICES, 32);
  }

  lemma {:induction false} NoHighBits(e: Mask, lo: nat, n: nat)
    requires lo <= n <= 32 && forall i :: lo <= i < 32 ==> !e[i]
    ensures SetBits(e, n) == SetBits(e, lo)
    decreases n
  {
    if lo < n {
      NoHighBits(e, lo, n - 1);
    }
  }
}
