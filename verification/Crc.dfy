/** The checksum of `aetherfs_format.h`: a reflected 32-bit CRC with the
    polynomial of section 3.2.9 of IEEE 802.3. The data form seeds it with all
    ones, which the entry complement cancels, so its register starts at zero. */
module Crc {
  import opened Bytes

  const POLY: nat := 0xEDB88320
  const ONES: nat := 0xFFFF_FFFF
  const CRC_SEED: nat := ONES

  /** One turn of the bit loop. */
  function Step(c: nat): nat {
    Xor(c / 2, Tap(c % 2))
  }

  function Tap(bit: nat): nat {
    if bit == 1 then POLY else 0
  }

  function Steps(c: nat, k: nat): nat
    decreases k, c
  {
    if k == 0 then c else Steps(Step(c), k - 1)
  }

  /** One turn of the byte loop. */
  function Feed(c: nat, x: Byte): nat {
    Steps(Xor(c, x), 8)
  }

  function Fold(c: nat, s: seq<Byte>): nat
    decreases s, c
  {
    if s == [] then c else Fold(Feed(c, s[0]), s[1..])
  }

  function Checksum(crc: nat, s: seq<Byte>): nat {
    Xor(Fold(Xor(crc, ONES), s), ONES)
  }

  function DataChecksum(s: seq<Byte>): nat {
    Checksum(CRC_SEED, s)
  }

  /** The two nested loops, run on a buffer. */
  method ComputeChecksum(crc: nat, buf: seq<Byte>) returns (r: nat)
    ensures r == Checksum(crc, buf)
  {
    var c := Xor(crc, ONES);
    for p := 0 to |buf|
      invariant Fold(c, buf[p..]) == Fold(Xor(crc, ONES), buf)
    {
      ghost var before := c;
      c := Xor(c, buf[p]);
      for i := 0 to 8
        invariant Steps(c, 8 - i) == Feed(before, buf[p])
      {
        c := Xor(c / 2, if c % 2 == 1 then POLY else 0);
      }
      assert buf[p..][1..] == buf[p + 1..];
    }
    r := Xor(c, ONES);
  }

  // --------------------------------------------------------- the register as a polynomial

  predicate Bit(v: nat, i: nat) {
    v / Pow2(i) % 2 == 1
  }

  lemma BitHalf(v: nat, i: nat)
    ensures Bit(v, i + 1) == Bit(v / 2, i) && (Bit(v, 0) <==> v % 2 == 1)
  {
    hide Pow2;
    PowStep(i);
    DivTwoStep(v, Pow2(i));
  }

  lemma PowStep(i: nat)
    ensures Pow2(i + 1) == 2 * Pow2(i) && Pow2(0) == 1
  {
  }

  lemma DivTwoStep(v: nat, d: nat)
    requires d > 0
    ensures v / (2 * d) == v / 2 / d
  {
    var q, r := v / 2 / d, v / 2 % d;
    assert v / 2 == q * d + r;
    var low := v - 2 * (q * d);
    assert v == q * (2 * d) + low && 0 <= low < 2 * d;
    DivModUnique(q, low, 2 * d);
  }

  lemma {:induction false} XorBit(a: nat, b: nat, i: nat)
    ensures Bit(Xor(a, b), i) == (Bit(a, i) != Bit(b, i))
    decreases i
  {
    hide Xor, Bit;
    XorBits(a, b);
    BitHalf(a, 0);
    BitHalf(b, 0);
    BitHalf(Xor(a, b), 0);
    if i > 0 {
      XorBit(a / 2, b / 2, i - 1);
      BitHalf(a, i - 1);
      BitHalf(b, i - 1);
      BitHalf(Xor(a, b), i - 1);
    }
  }

  /** The generator of section 3.2.9 of IEEE 802.3 has these terms below x^32. */
  predicate GeneratorTerm(k: nat) {
    k in {0, 1, 2, 4, 5, 7, 8, 10, 11, 12, 16, 22, 23, 26}
  }

  lemma PolyBits(i: nat)
    requires i < 32
    ensures Bit(POLY, i) <==> GeneratorTerm(31 - i)
  {
    if i < 8 {
      PolyByte(i, 0x20);
    } else if i < 16 {
      PolyByte(i, 0x83);
    } else if i < 24 {
      PolyByte(i, 0xB8);
    } else {
      PolyByte(i, 0xED);
    }
  }

  lemma PolyByte(i: nat, b: nat)
    requires i < 32 && b == [0x20, 0x83, 0xB8, 0xED][i / 8]
    ensures Bit(POLY, i) == Bit(b, i % 8)
    ensures Bit(b, i % 8) <==> GeneratorTerm(31 - i)
  {
    assert Pow2(0) == 1 && Pow2(1) == 2 && Pow2(2) == 4 && Pow2(3) == 8 && Pow2(4) == 16 && Pow2(5) == 32 && Pow2(6) == 64 && Pow2(7) == 128;
    assert Pow2(8) == 256 && Pow2(9) == 512 && Pow2(10) == 1024 && Pow2(11) == 2048 && Pow2(12) == 4096 && Pow2(13) == 8192;
    assert Pow2(14) == 16384 && Pow2(15) == 32768 && Pow2(16) == 65536 && Pow2(17) == 131072 && Pow2(18) == 262144 && Pow2(19) == 524288;
    assert Pow2(20) == 1048576 && Pow2(21) == 2097152 && Pow2(22) == 4194304 && Pow2(23) == 8388608 && Pow2(24) == 16777216;
    assert Pow2(25) == 33554432 && Pow2(26) == 67108864 && Pow2(27) == 134217728 && Pow2(28) == 268435456 && Pow2(29) == 536870912;
    assert Pow2(30) == 1073741824 && Pow2(31) == 2147483648;
  }

  /** Bit i of the register is the coefficient of x^(31 - i). */
  predicate Coefficient(c: nat, k: nat)
    requires k < 32
  {
    Bit(c, 31 - k)
  }

  /** A step multiplies by x modulo the generator: coefficients move up by one, and if
      x^31 was there, the generator's terms are subtracted. */
  lemma StepTimesX(c: nat, k: nat)
    requires c < U32 && k < 32
    ensures Coefficient(Step(c), k) == ((k > 0 && Coefficient(c, k - 1)) != (Coefficient(c, 31) && GeneratorTerm(k)))
  {
    hide Xor, Bit, Pow2;
    var i := 31 - k;
    XorBit(c / 2, Tap(c % 2), i);
    BitHalf(c, i);
    PolyBits(i);
    NoBit(i);
    if k == 0 {
      TopClear(c);
    }
  }

  lemma NoBit(i: nat)
    ensures !Bit(0, i)
  {
    hide Pow2;
  }

  lemma TopClear(c: nat)
    requires c < U32
    ensures !Bit(c, 32)
  {
    Pow2Values();
  }

  /** The byte loop feeds the bits of the byte one by one, the lowest first. */
  function FeedBits(c: nat, x: nat, k: nat): nat
    decreases k, c
  {
    if k == 0 then c else FeedBits(Step(Xor(c, x % 2)), x / 2, k - 1)
  }

  lemma {:induction false} StepsFeedBits(c: nat, x: nat, k: nat)
    requires x < Pow2(k)
    ensures Steps(Xor(c, x), k) == FeedBits(c, x, k)
    decreases k
  {
    hide Xor, Step;
    if k == 0 {
      XorZero(c);
    } else {
      StepSplits(c, x);
      PowStep(k - 1);
      StepsFeedBits(Step(Xor(c, x % 2)), x / 2, k - 1);
    }
  }

  lemma StepSplits(c: nat, x: nat)
    ensures Step(Xor(c, x)) == Xor(Step(Xor(c, x % 2)), x / 2)
  {
    hide Xor, Tap;
    XorBits(c, x);
    XorBits(c, x % 2);
    XorZero(c / 2);
    var t := Tap(Xor(c, x) % 2);
    XorAssoc(c / 2, x / 2, t);
    XorComm(x / 2, t);
    XorAssoc(c / 2, t, x / 2);
  }

  lemma FeedIsBits(c: nat, x: Byte)
    ensures Feed(c, x) == FeedBits(c, x, 8)
  {
    assert Pow2(8) == 256;
    StepsFeedBits(c, x, 8);
  }

  // ------------------------------------------------------------------- composition

  lemma {:induction false} FoldConcat(c: nat, a: seq<Byte>, b: seq<Byte>)
    ensures Fold(c, a + b) == Fold(Fold(c, a), b)
    decreases |a|
  {
    if a == [] {
      assert a + b == b;
    } else {
      assert (a + b)[1..] == a[1..] + b;
      FoldConcat(Feed(c, a[0]), a[1..], b);
    }
  }

  /** A checksum can be continued: checksumming b from the checksum of a is
      checksumming a followed by b. */
  lemma ChecksumComposes(crc: nat, a: seq<Byte>, b: seq<Byte>)
    ensures Checksum(Checksum(crc, a), b) == Checksum(crc, a + b)
  {
    XorTwice(Fold(Xor(crc, ONES), a), ONES);
    FoldConcat(Xor(crc, ONES), a, b);
  }

  /** The seed cancels: the data checksum is the register run from zero. */
  lemma DataChecksumStartsAtZero(s: seq<Byte>)
    ensures DataChecksum(s) == Xor(Fold(0, s), ONES)
  {
    XorCancels(ONES, ONES);
  }

  // --------------------------------------------------------------------- linearity

  lemma XorShuffle(a: nat, b: nat, c: nat, d: nat)
    ensures Xor(Xor(a, b), Xor(c, d)) == Xor(Xor(a, c), Xor(b, d))
  {
    hide Xor;
    XorAssoc(a, b, Xor(c, d));
    XorAssoc(b, c, d);
    XorComm(b, c);
    XorAssoc(c, b, d);
    XorAssoc(a, c, Xor(b, d));
  }

  lemma TapLinear(x: nat, y: nat)
    requires x < 2 && y < 2
    ensures Tap((x + y) % 2) == Xor(Tap(x), Tap(y))
  {
    SelectLinear(POLY, x, y);
  }

  lemma SelectLinear(p: nat, x: nat, y: nat)
    requires x < 2 && y < 2
    ensures Xor(if x == 1 then p else 0, if y == 1 then p else 0) == if (x + y) % 2 == 1 then p else 0
  {
    XorZero(p);
    XorZero(0);
    XorCancels(p, p);
  }

  lemma StepLinear(a: nat, b: nat)
    ensures Step(Xor(a, b)) == Xor(Step(a), Step(b))
  {
    hide Xor, Tap;
    calc {
      Step(Xor(a, b));
      { XorBits(a, b); TapLinear(a % 2, b % 2); }
      Xor(Xor(a / 2, b / 2), Xor(Tap(a % 2), Tap(b % 2)));
      { XorShuffle(a / 2, b / 2, Tap(a % 2), Tap(b % 2)); }
      Xor(Xor(a / 2, Tap(a % 2)), Xor(b / 2, Tap(b % 2)));
    }
  }

  lemma {:induction false} StepsLinear(a: nat, b: nat, k: nat)
    ensures Steps(Xor(a, b), k) == Xor(Steps(a, k), Steps(b, k))
    decreases k
  {
    hide Step, Xor;
    if k != 0 {
      StepLinear(a, b);
      StepsLinear(Step(a), Step(b), k - 1);
    }
  }

  function XorSeq(a: seq<Byte>, b: seq<Byte>): (r: seq<Byte>)
    requires |a| == |b|
    ensures |r| == |a|
  {
    seq(|a|, i requires 0 <= i < |a| => XorByte(a[i], b[i]))
  }

  /** The register is linear over exclusive or, in its start and in the data. */
  lemma {:induction false} FoldLinear(c: nat, d: nat, a: seq<Byte>, b: seq<Byte>)
    requires |a| == |b|
    ensures Fold(Xor(c, d), XorSeq(a, b)) == Xor(Fold(c, a), Fold(d, b))
    decreases |a|
  {
    hide Steps, Xor;
    if a != [] {
      XorShuffle(c, d, a[0], b[0]);
      StepsLinear(Xor(c, a[0]), Xor(d, b[0]), 8);
      assert XorSeq(a, b)[1..] == XorSeq(a[1..], b[1..]);
      FoldLinear(Feed(c, a[0]), Feed(d, b[0]), a[1..], b[1..]);
    }
  }

  // --------------------------------------------------------------- error detection

  /** The polynomial has its top bit set, so a step that ends below 2^31 shifted
      out a zero bit and can be undone by doubling. */
  lemma StepUndone(c: nat)
    requires c < U32 && Step(c) < 0x8000_0000
    ensures c == 2 * Step(c)
  {
    XorZero(c / 2);
    if c % 2 == 1 {
      Pow2Values();
      XorTwice(c / 2, POLY);
      XorComm(c / 2, POLY);
      XorTwice(POLY, c / 2);
      XorBound(Step(c), c / 2, 31);
      assert false;
    }
  }

  lemma StepBound(c: nat)
    requires c < U32
    ensures Step(c) < U32
  {
    Pow2Values();
    XorBound(c / 2, Tap(c % 2), 32);
  }

  lemma {:induction false} StepsBound(c: nat, k: nat)
    requires c < U32
    ensures Steps(c, k) < U32
    decreases k
  {
    if k != 0 {
      StepBound(c);
      StepsBound(Step(c), k - 1);
    }
  }

  /** Steps that end below 2^(32-k) only shifted: the start is the end times 2^k. */
  lemma {:induction false} StepsUndone(c: nat, k: nat)
    requires c < U32 && k <= 32 && Steps(c, k) < Pow2(32 - k)
    ensures c == Pow2(k) * Steps(c, k)
    decreases k
  {
    if k != 0 {
      StepBound(c);
      ghost var e := Steps(c, k);
      Pow2Monotone(32 - k, 31);
      StepsUndone(Step(c), k - 1);
      Doubling(Pow2(k - 1), e);
      Pow2Split(k - 1, 32 - k);
      Pow2Values();
      MulLess(Pow2(k - 1), e, Pow2(32 - k));
      StepUndone(c);
    }
  }

  lemma Doubling(p: nat, e: nat)
    ensures 2 * p * e == 2 * (p * e)
  {
  }

  lemma MulLess(p: nat, e: nat, q: nat)
    requires p > 0 && e < q
    ensures p * e < p * q
  {
  }

  lemma {:induction false} Pow2Monotone(i: nat, j: nat)
    requires i <= j
    ensures Pow2(i) <= Pow2(j)
    decreases j
  {
    if i < j {
      Pow2Monotone(i, j - 1);
    }
  }

  lemma {:induction false} Pow2Split(i: nat, j: nat)
    ensures Pow2(i) * Pow2(j) == Pow2(i + j)
    decreases i
  {
    if i != 0 {
      Pow2Split(i - 1, j);
      Doubling(Pow2(i - 1), Pow2(j));
    }
  }

  /** No register but zero is stepped to zero. */
  lemma StepsNonZero(c: nat, k: nat)
    requires c < U32 && k <= 32 && Steps(c, k) == 0
    ensures c == 0
  {
    StepsUndone(c, k);
  }

  /** Zero bytes keep a zero register at zero and a nonzero register nonzero. */
  lemma {:induction false} FoldZeros(c: nat, s: seq<Byte>)
    requires c < U32 && forall i :: 0 <= i < |s| ==> s[i] == 0
    ensures Fold(c, s) == 0 <==> c == 0
    decreases |s|
  {
    if s != [] {
      XorZero(c);
      StepsBound(c, 8);
      StepsZero(8);
      if Feed(c, s[0]) == 0 {
        StepsNonZero(c, 8);
      }
      FoldZeros(Feed(c, s[0]), s[1..]);
    }
  }

  lemma {:induction false} StepsZero(k: nat)
    ensures Steps(0, k) == 0
    decreases k
  {
    if k != 0 {
      XorZero(0);
      StepsZero(k - 1);
    }
  }

  /** A register that at most four bytes bring to zero is no longer than those
      bytes. */
  lemma {:induction false} FoldToZeroShort(c: nat, s: seq<Byte>)
    requires c < U32 && |s| <= 4 && Fold(c, s) == 0
    ensures c < Pow2(8 * |s|)
    decreases |s|
  {
    if s != [] {
      var x := Xor(c, s[0]);
      var e := Steps(x, 8);
      var k := 8 * |s[1..]|;
      Pow2Values();
      XorBound(c, s[0], 32);
      StepsBound(x, 8);
      FoldToZeroShort(e, s[1..]);
      Pow2Monotone(k, 24);
      StepsUndone(x, 8);
      Pow2Split(8, k);
      MulLess(Pow2(8), e, Pow2(k));
      Pow2Monotone(8, k + 8);
      XorTwice(c, s[0]);
      XorBound(x, s[0], k + 8);
    }
  }

  /** From zero, at most four bytes come back to zero only if all are zero. */
  lemma {:induction false} FoldWindow(s: seq<Byte>)
    requires |s| <= 4 && Fold(0, s) == 0
    ensures forall i :: 0 <= i < |s| ==> s[i] == 0
    decreases |s|
  {
    if s != [] {
      var e := Steps(s[0], 8);
      XorZero(s[0]);
      Pow2Values();
      StepsBound(s[0], 8);
      FoldToZeroShort(e, s[1..]);
      Pow2Monotone(8 * |s[1..]|, 24);
      StepsUndone(s[0], 8);
      assert s[0] == 256 * e;
      FoldWindow(s[1..]);
      forall i | 0 <= i < |s|
        ensures s[i] == 0
      {
        assert i > 0 ==> s[i] == s[1..][i - 1];
      }
    }
  }

  /** a and b agree outside the bytes [at, at + w). */
  ghost predicate DifferWithin(a: seq<Byte>, b: seq<Byte>, at: nat, w: nat) {
    && |a| == |b| && at + w <= |a|
    && forall i :: 0 <= i < |a| && !(at <= i < at + w) ==> a[i] == b[i]
  }

  /** Burst detection: buffers of any one length that differ, and only within
      four consecutive bytes, have different checksums. */
  lemma BurstDetected(a: seq<Byte>, b: seq<Byte>, at: nat, w: nat)
    requires DifferWithin(a, b, at, w) && w <= 4 && a != b
    ensures DataChecksum(a) != DataChecksum(b)
  {
    var d := XorSeq(a, b);
    DifferenceZeros(a, b);
    assert exists i :: at <= i < at + w && d[i] != 0 by {
      var i :| 0 <= i < |a| && a[i] != b[i];
    }
    BurstNonZero(d, at, w);
    FoldLinear(0, 0, a, b);
    XorZero(0);
    XorCancels(Fold(0, a), Fold(0, b));
    SameChecksumSameRegister(a, b);
  }

  lemma DifferenceZeros(a: seq<Byte>, b: seq<Byte>)
    requires |a| == |b|
    ensures forall i :: 0 <= i < |a| ==> (XorSeq(a, b)[i] == 0 <==> a[i] == b[i])
  {
    forall i | 0 <= i < |a|
      ensures XorSeq(a, b)[i] == 0 <==> a[i] == b[i]
    {
      XorCancels(a[i], b[i]);
    }
  }

  lemma SameChecksumSameRegister(a: seq<Byte>, b: seq<Byte>)
    ensures DataChecksum(a) == DataChecksum(b) ==> Fold(0, a) == Fold(0, b)
  {
    DataChecksumStartsAtZero(a);
    DataChecksumStartsAtZero(b);
    XorTwice(Fold(0, a), ONES);
    XorTwice(Fold(0, b), ONES);
  }

  /** A difference that is nonzero only inside four consecutive bytes leaves a
      nonzero register, whatever zeros surround it. */
  lemma BurstNonZero(d: seq<Byte>, at: nat, w: nat)
    requires at + w <= |d| && w <= 4
    requires forall i :: 0 <= i < |d| && !(at <= i < at + w) ==> d[i] == 0
    requires exists i :: at <= i < at + w && d[i] != 0
    ensures Fold(0, d) != 0
  {
    var pre, mid, post := d[..at], d[at..at + w], d[at + w..];
    assert d == pre + mid + post;
    FoldConcat(0, pre + mid, post);
    FoldConcat(0, pre, mid);
    FoldZeros(0, pre);
    var i :| at <= i < at + w && d[i] != 0;
    assert mid[i - at] == d[i];
    if Fold(0, mid) == 0 {
      FoldWindow(mid);
    }
    FoldBound(0, mid);
    FoldZeros(Fold(0, mid), post);
  }

  lemma {:induction false} FoldBound(c: nat, s: seq<Byte>)
    requires c < U32
    ensures Fold(c, s) < U32
    decreases |s|
  {
    if s != [] {
      Pow2Values();
      XorBound(c, s[0], 32);
      StepsBound(Xor(c, s[0]), 8);
      FoldBound(Feed(c, s[0]), s[1..]);
    }
  }

  lemma DataChecksumBound(s: seq<Byte>)
    ensures DataChecksum(s) < U32
  {
    DataChecksumStartsAtZero(s);
    FoldBound(0, s);
    Pow2Values();
    XorBound(Fold(0, s), ONES, 32);
  }
}
