/** Bytes, blocks, exclusive-or and little-endian fields: the machine-level
    vocabulary every other module is written in. */
module Bytes {

  const U32: int := 0x1_0000_0000
  const U64: int := 0x1_0000_0000_0000_0000
  const BLOCK_SIZE: int := 4096

  /** The bootstrap blocks, and the first block after them. */
  const POOL_LABEL_BLOCK: nat := 0
  const SUPER_BLOCK: nat := 1
  const ROOT_INODE_BLOCK: nat := 2
  const ROOT_DIR_BLOCK: nat := 3
  const JOURNAL_BLOCK: nat := 4
  const INODE_BITMAP_BLOCK: nat := 5
  const FREE_EXTENT_BLOCK: nat := 6
  const CHECKPOINT_BLOCK: nat := 7
  const DATA_START: nat := 8

  type Byte = x: int | 0 <= x < 256
  type Block = b: seq<Byte> | |b| == 4096 witness seq(4096, _ => 0)

  function ZeroBlock(): Block {
    seq(4096, _ => 0)
  }

  /** The error numbers the userspace tools return. `Undefined` stands for an
      access outside a C object, to which C gives no meaning. */
  datatype Error =
    | EINVAL | EIO | EILSEQ | ERANGE | ENOSPC | EUCLEAN | EEXIST
    | EOPNOTSUPP | EBADF | EXDEV | EBADE | ENOENT | ENOMEM | Undefined

  datatype Result<+T> = Ok(value: T) | Err(error: Error)

  /** The result of a C function that returns 0 or a negative error number. */
  datatype Rc = Zero | Neg(error: Error)

  // -------------------------------------------------------------------- arithmetic

  lemma DivModUnique(q: nat, r: nat, d: nat)
    requires r < d
    ensures (q * d + r) / d == q && (q * d + r) % d == r
  {
    var x := q * d + r;
    var q', r' := x / d, x % d;
    assert x == q' * d + r';
    assert (q' + 1) * d == q' * d + d && (q + 1) * d == q * d + d;
    if q' < q {
      MulLe(q' + 1, q, d);
    } else if q < q' {
      MulLe(q + 1, q', d);
    }
  }

  lemma MulLe(a: nat, b: nat, d: nat)
    requires a <= b
    ensures 0 <= a * d <= b * d
  {
  }

  lemma DivMod(x: nat, d: nat)
    requires d > 0
    ensures x == x / d * d + x % d && x / d * d <= x && x % d < d
  {
  }

  // ---------------------------------------------------------------- exclusive or

  function Xor(a: nat, b: nat): nat
    decreases a + b
  {
    if a == 0 && b == 0 then 0 else (a % 2 + b % 2) % 2 + 2 * Xor(a / 2, b / 2)
  }

  lemma XorBits(a: nat, b: nat)
    ensures Xor(a, b) % 2 == (a % 2 + b % 2) % 2
    ensures Xor(a, b) / 2 == Xor(a / 2, b / 2)
  {
  }

  lemma {:induction false} XorComm(a: nat, b: nat)
    ensures Xor(a, b) == Xor(b, a)
    decreases a + b
  {
    if a != 0 || b != 0 {
      XorComm(a / 2, b / 2);
    }
  }

  lemma {:induction false} XorAssoc(a: nat, b: nat, c: nat)
    ensures Xor(Xor(a, b), c) == Xor(a, Xor(b, c))
    decreases a, b, c
  {
    if a == 0 {
      XorZero(b);
      XorZero(Xor(b, c));
    } else {
      XorAssoc(a / 2, b / 2, c / 2);
      XorAssocStep(a, b, c, a / 2, b / 2, c / 2);
    }
  }

  lemma {:induction false} XorAssocStep(a: nat, b: nat, c: nat, ha: nat, hb: nat, hc: nat)
    requires ha == a / 2 && hb == b / 2 && hc == c / 2
    requires Xor(Xor(ha, hb), hc) == Xor(ha, Xor(hb, hc))
    ensures Xor(Xor(a, b), c) == Xor(a, Xor(b, c))
  {
    hide Xor;
    var pa, pb, pc := a % 2, b % 2, c % 2;
    calc {
      Xor(Xor(a, b), c);
      { XorParts(a, b, pa, ha, pb, hb); XorParts(Xor(a, b), c, (pa + pb) % 2, Xor(ha, hb), pc, hc); }
      ((pa + pb) % 2 + pc) % 2 + 2 * Xor(Xor(ha, hb), hc);
      { ParityAssoc(pa, pb, pc); }
      (pa + (pb + pc) % 2) % 2 + 2 * Xor(ha, Xor(hb, hc));
      { XorParts(b, c, pb, hb, pc, hc); XorParts(a, Xor(b, c), pa, ha, (pb + pc) % 2, Xor(hb, hc)); }
      Xor(a, Xor(b, c));
    }
  }

  lemma XorParts(x: nat, y: nat, lx: nat, hx: nat, ly: nat, hy: nat)
    requires x == lx + 2 * hx && y == ly + 2 * hy && lx < 2 && ly < 2
    ensures Xor(x, y) == (lx + ly) % 2 + 2 * Xor(hx, hy)
  {
    Halves(x, lx, hx);
    Halves(y, ly, hy);
  }

  lemma Halves(x: nat, lx: nat, hx: nat)
    requires x == lx + 2 * hx && lx < 2
    ensures x / 2 == hx && x % 2 == lx
  {
  }

  lemma ParityAssoc(a: nat, b: nat, c: nat)
    ensures ((a + b) % 2 + c) % 2 == (a + (b + c) % 2) % 2
  {
  }

  lemma {:induction false} XorZero(a: nat)
    ensures Xor(a, 0) == a && Xor(0, a) == a
  {
    if a != 0 {
      XorZero(a / 2);
    }
  }

  /** Two numbers cancel exactly when they are equal. */
  lemma {:induction false} XorCancels(a: nat, b: nat)
    ensures Xor(a, b) == 0 <==> a == b
    decreases a + b
  {
    if a != 0 || b != 0 {
      XorCancels(a / 2, b / 2);
    }
  }

  /** x ^ m ^ m == x, the identity every read-modify-write here rests on. */
  lemma XorTwice(a: nat, m: nat)
    ensures Xor(Xor(a, m), m) == a
  {
    XorAssoc(a, m, m);
    XorCancels(m, m);
    XorZero(a);
  }

  function Pow2(k: nat): (p: nat)
    ensures p > 0
    decreases k
  {
    if k == 0 then 1 else 2 * Pow2(k - 1)
  }

  lemma {:induction false} XorBound(a: nat, b: nat, k: nat)
    requires a < Pow2(k) && b < Pow2(k)
    ensures Xor(a, b) < Pow2(k)
    decreases k
  {
    if k != 0 {
      XorBound(a / 2, b / 2, k - 1);
    }
  }

  lemma Pow2Values()
    ensures Pow2(8) == 256 && Pow2(16) == 0x1_0000 && Pow2(24) == 0x100_0000
    ensures Pow2(31) == 0x8000_0000 && Pow2(32) == U32
  {
    assert Pow2(4) == 16 && Pow2(8) == 256 && Pow2(12) == 4096 && Pow2(16) == 0x1_0000;
    assert Pow2(20) == 0x10_0000 && Pow2(24) == 0x100_0000 && Pow2(28) == 0x1000_0000;
  }

  function XorByte(a: Byte, b: Byte): Byte
  {
    Pow2Values();
    XorBound(a, b, 8);
    Xor(a, b)
  }

  function XorBlock(a: Block, b: Block): Block
  {
    seq(4096, i requires 0 <= i < 4096 => XorByte(a[i], b[i]))
  }

  lemma XorBlockComm(a: Block, b: Block)
    ensures XorBlock(a, b) == XorBlock(b, a)
  {
    forall i | 0 <= i < 4096
      ensures XorBlock(a, b)[i] == XorBlock(b, a)[i]
    {
      XorComm(a[i], b[i]);
    }
  }

  lemma XorBlockAssoc(a: Block, b: Block, c: Block)
    ensures XorBlock(XorBlock(a, b), c) == XorBlock(a, XorBlock(b, c))
  {
    forall i | 0 <= i < 4096
      ensures XorBlock(XorBlock(a, b), c)[i] == XorBlock(a, XorBlock(b, c))[i]
    {
      XorAssoc(a[i], b[i], c[i]);
    }
  }

  lemma XorBlockZero(a: Block)
    ensures XorBlock(a, ZeroBlock()) == a && XorBlock(ZeroBlock(), a) == a
  {
    forall i | 0 <= i < 4096
      ensures XorBlock(a, ZeroBlock())[i] == a[i] && XorBlock(ZeroBlock(), a)[i] == a[i]
    {
      XorZero(a[i]);
    }
  }

  lemma XorBlockCancels(a: Block, b: Block)
    ensures XorBlock(a, b) == ZeroBlock() <==> a == b
  {
    forall i | 0 <= i < 4096
      ensures XorBlock(a, b)[i] == ZeroBlock()[i] <==> a[i] == b[i]
    {
      XorCancels(a[i], b[i]);
    }
    if XorBlock(a, b) == ZeroBlock() {
      assert forall i :: 0 <= i < 4096 ==> a[i] == b[i];
    }
  }

  // ------------------------------------------------------- little-endian fields

  function Pow256(n: nat): (p: nat)
    ensures p > 0
    decreases n
  {
    if n == 0 then 1 else 256 * Pow256(n - 1)
  }

  /** The unsigned little-endian number in the n bytes of b at off. */
  function Get(b: seq<Byte>, off: nat, n: nat): (v: nat)
    requires off + n <= |b|
    ensures v < Pow256(n)
    decreases n, b
  {
    if n == 0 then 0 else b[off] + 256 * Get(b, off + 1, n - 1)
  }

  /** b with the low n bytes of v stored little-endian at off. */
  function Put(b: seq<Byte>, off: nat, n: nat, v: nat): (r: seq<Byte>)
    requires off + n <= |b|
    ensures |r| == |b|
    ensures forall i :: 0 <= i < |b| && !(off <= i < off + n) ==> r[i] == b[i]
    decreases n, b
  {
    if n == 0 then b else Put(b, off + 1, n - 1, v / 256)[off := v % 256]
  }

  /** A field depends on its own bytes only. */
  lemma {:induction false} GetFrame(a: seq<Byte>, b: seq<Byte>, off: nat, n: nat)
    requires off + n <= |a| && off + n <= |b|
    requires forall i :: off <= i < off + n ==> a[i] == b[i]
    ensures Get(a, off, n) == Get(b, off, n)
    decreases n
  {
    if n != 0 {
      GetFrame(a, b, off + 1, n - 1);
    }
  }

  lemma {:induction false} GetPut(b: seq<Byte>, off: nat, n: nat, v: nat)
    requires off + n <= |b| && v < Pow256(n)
    ensures Get(Put(b, off, n, v), off, n) == v
    decreases n
  {
    if n != 0 {
      GetPut(b, off + 1, n - 1, v / 256);
      GetFrame(Put(b, off, n, v), Put(b, off + 1, n - 1, v / 256), off + 1, n - 1);
    }
  }

  lemma GetPutOther(b: seq<Byte>, off: nat, n: nat, v: nat, off': nat, n': nat)
    requires off + n <= |b| && off' + n' <= |b|
    requires off' + n' <= off || off + n <= off'
    ensures Get(Put(b, off, n, v), off', n') == Get(b, off', n')
  {
    GetFrame(Put(b, off, n, v), b, off', n');
  }

  /** Storing what a field holds changes nothing. */
  lemma {:induction false} PutGetSame(b: seq<Byte>, off: nat, n: nat)
    requires off + n <= |b|
    ensures Put(b, off, n, Get(b, off, n)) == b
    decreases n
  {
    if n > 0 {
      PutGetSame(b, off + 1, n - 1);
      var v := Get(b, off, n);
      assert v / 256 == Get(b, off + 1, n - 1) && v % 256 == b[off];
    }
  }

  /** A field holding zero bytes reads as zero. */
  lemma {:induction false} GetZero(b: seq<Byte>, off: nat, n: nat)
    requires off + n <= |b|
    requires forall i :: off <= i < off + n ==> b[i] == 0
    ensures Get(b, off, n) == 0
    decreases n
  {
    if n != 0 {
      GetZero(b, off + 1, n - 1);
    }
  }

  /** What a store leaves in its own bytes does not depend on what was there. */
  lemma {:induction false} PutOverwrites(a: seq<Byte>, b: seq<Byte>, off: nat, n: nat, v: nat)
    requires |a| == |b| && off + n <= |a|
    requires forall i :: 0 <= i < |a| && !(off <= i < off + n) ==> a[i] == b[i]
    ensures Put(a, off, n, v) == Put(b, off, n, v)
    decreases n
  {
    if n != 0 {
      PutOverwrites(a[off := v % 256], b[off := v % 256], off + 1, n - 1, v / 256);
      var a1, b1 := Put(a, off + 1, n - 1, v / 256), Put(b, off + 1, n - 1, v / 256);
      PutStep(a, off, n, v);
      PutStep(b, off, n, v);
    } else {
      assert a == b;
    }
  }

  lemma {:induction false} PutStep(b: seq<Byte>, off: nat, n: nat, v: nat)
    requires n > 0 && off + n <= |b|
    ensures Put(b, off, n, v) == Put(b[off := v % 256], off + 1, n - 1, v / 256)
  {
    PutCommutes(b, off, v % 256, off + 1, n - 1, v / 256);
  }

  lemma {:induction false} PutCommutes(b: seq<Byte>, at: nat, x: Byte, off: nat, n: nat, v: nat)
    requires at < off && off + n <= |b|
    ensures Put(b[at := x], off, n, v) == Put(b, off, n, v)[at := x]
    decreases n
  {
    if n != 0 {
      PutCommutes(b, at, x, off + 1, n - 1, v / 256);
    }
  }

  lemma Pow256Values()
    ensures Pow256(2) == 0x1_0000 && Pow256(4) == U32 && Pow256(8) == U64
  {
    assert Pow256(3) == 0x100_0000 && Pow256(5) == 256 * U32;
    assert Pow256(6) == 0x1_0000 * U32 && Pow256(7) == 0x100_0000 * U32;
  }

  function Get16(b: seq<Byte>, off: nat): (v: nat)
    requires off + 2 <= |b|
    ensures v < 0x1_0000
  {
    Pow256Values();
    Get(b, off, 2)
  }

  function Get32(b: seq<Byte>, off: nat): (v: nat)
    requires off + 4 <= |b|
    ensures v < U32
  {
    Pow256Values();
    Get(b, off, 4)
  }

  function Get64(b: seq<Byte>, off: nat): (v: nat)
    requires off + 8 <= |b|
    ensures v < U64
  {
    Pow256Values();
    Get(b, off, 8)
  }

  /** Unsigned 64-bit addition. */
  function Add64(a: nat, b: nat): nat {
    (a + b) % U64
  }
}
