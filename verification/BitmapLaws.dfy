/** The inode bitmap: its counted bits are the inodes it marks as used, and an accepted
    image reports as many of them as it has files and directories. */
module BitmapLaws {
  import opened Bytes
  import opened Layout
  import opened V = Validator
  import opened ValidatorLaws
  import opened Acceptance
  import opened Loader
  import opened Meaning
  import opened Geometry
  import opened SpaceBound

  // -------------------------------------------------------------------------- bits of a byte

  /** The set bits among the lowest k. */
  function LowBits(x: nat, k: nat): nat
    decreases k
  {
    if k == 0 then 0 else LowBits(x, k - 1) + x / Pow2(k - 1) % 2
  }

  lemma HalveThenShift(x: nat, k: nat)
    requires k > 0
    ensures x / Pow2(k) == x / 2 / Pow2(k - 1)
  {
    hide Pow2;
    assert Pow2(k) == 2 * Pow2(k - 1) by {
      Pow2Doubles(k);
    }
    DivTwice(x, Pow2(k - 1));
  }

  lemma Pow2Doubles(k: nat)
    requires k > 0
    ensures Pow2(k) == 2 * Pow2(k - 1)
  {
  }

  lemma DivTwice(x: nat, p: nat)
    requires p > 0
    ensures x / (2 * p) == x / 2 / p
  {
    var h, q := x / 2, x / 2 / p;
    var r := h - q * p;
    assert x == q * (2 * p) + (2 * r + x % 2);
    DivModUnique(q, 2 * r + x % 2, 2 * p);
  }

  lemma {:induction false} LowBitsHalve(x: nat, k: nat)
    requires k > 0
    ensures LowBits(x, k) == x % 2 + LowBits(x / 2, k - 1)
    decreases k
  {
    hide Pow2;
    if k == 1 {
      OneIsPow();
      assert LowBits(x, 1) == LowBits(x, 0) + x / Pow2(0) % 2;
    } else {
      LowBitsHalve(x, k - 1);
      HalveThenShift(x, k - 1);
    }
  }

  lemma OneIsPow()
    ensures Pow2(0) == 1
  {
  }

  /** Shifting out one bit at a time counts the set bits. */
  lemma {:induction false} BitsInExact(x: nat, k: nat)
    requires x < Pow2(k)
    ensures BitsIn(x) == LowBits(x, k)
    decreases k
  {
    if k == 0 {
      assert BitsIn(0) == 0;
    } else {
      LowBitsHalve(x, k);
      BitsInExact(x / 2, k - 1);
    }
  }

  // ------------------------------------------------------------------------ bits of the bitmap

  /** The inodes below n that the bitmap marks as used. */
  function UsedInodes(b: Block, n: nat): set<nat>
    requires n <= MAX_INODES
  {
    set i: nat | i < n && BitSet(b, i)
  }

  lemma UsedStep(b: Block, n: nat)
    requires n < MAX_INODES
    ensures |UsedInodes(b, n + 1)| == |UsedInodes(b, n)| + (if BitSet(b, n) then 1 else 0)
  {
    hide BitSet;
    if BitSet(b, n) {
      assert UsedInodes(b, n + 1) == UsedInodes(b, n) + {n};
    } else {
      assert UsedInodes(b, n + 1) == UsedInodes(b, n);
    }
  }

  lemma {:induction false} UsedInByte(b: Block, n: nat, k: nat)
    requires n < 4080 && k <= 8
    ensures |UsedInodes(b, 8 * n + k)| == |UsedInodes(b, 8 * n)| + LowBits(b[16 + n], k)
    decreases k
  {
    hide Pow2, UsedInodes;
    if k != 0 {
      UsedInByte(b, n, k - 1);
      UsedStep(b, 8 * n + k - 1);
      assert (8 * n + k - 1) / 8 == n && (8 * n + k - 1) % 8 == k - 1;
      BitIs(b[16 + n], k - 1);
    }
  }

  lemma BitIs(x: nat, k: nat)
    ensures x / Pow2(k) % 2 == if x / Pow2(k) % 2 == 1 then 1 else 0
  {
    hide Pow2;
  }

  /** The count loop counts the used inodes. */
  lemma {:induction false} CountSetExact(b: Block, n: nat)
    requires n <= 4080
    ensures CountSet(b, n) == |UsedInodes(b, 8 * n)|
    decreases n
  {
    hide BitsIn, LowBits, BitSet;
    if n == 0 {
      assert UsedInodes(b, 0) == {};
    } else {
      CountSetExact(b, n - 1);
      UsedInByte(b, n - 1, 8);
      Pow2Values();
      BitsInExact(b[16 + n - 1], 8);
    }
  }

  // ------------------------------------------------------------------------------- the report

  lemma {:induction false} UsedAreFiles(rd: Reader, img: Image, refs: set<nat>, n: nat)
    requires n <= MAX_INODES && forall i :: 0 <= i < n ==> InodeGood(rd, img, refs, i)
    ensures |UsedInodes(img.bitmap, n)| == Files(img, n) + (if n > 0 && BitSet(img.bitmap, 0) && !IsFile(img, 0) then 1 else 0)
    decreases n
  {
    hide InodeGood, BitSet, IsFile, UsedInodes;
    if n == 0 {
      NothingUsed(img.bitmap);
    } else {
      UsedAreFiles(rd, img, refs, n - 1);
      UsedStep(img.bitmap, n - 1);
      assert InodeGood(rd, img, refs, n - 1);
      UsedIsFile(rd, img, refs, n - 1);
    }
  }

  lemma NothingUsed(b: Block)
    ensures UsedInodes(b, 0) == {}
  {
  }

  lemma UsedIsFile(rd: Reader, img: Image, refs: set<nat>, i: nat)
    requires i < MAX_INODES && InodeGood(rd, img, refs, i)
    ensures IsFile(img, i) ==> BitSet(img.bitmap, i)
    ensures BitSet(img.bitmap, i) && i > 0 ==> IsFile(img, i)
  {
    hide FileGood, BitSet, InodeAt, Mode, IsDir, IsReg, Sealed;
  }

  /** An accepted image reports exactly as many used inodes as files and directories. */
  lemma ReportAddsUp(rd: Reader, logicalBlocks: nat, memberCount: nat)
    requires Load(rd, logicalBlocks, memberCount).Ok? && Loaded(Load(rd, logicalBlocks, memberCount).value)
    requires Validate(rd, Load(rd, logicalBlocks, memberCount).value).Ok?
    ensures var a := Validate(rd, Load(rd, logicalBlocks, memberCount).value).value.report;
            a.inodesUsed == a.files + a.directories
  {
    hide Load, Validate, InodeGood, BitSet, IsFile, UsedInodes, CountSet, Sealed, CheckSuper, CheckCheckpoint, JournalSealed, SuperOf, JournalOf, ScanInodes,
      Get64, Get32, NodeCount, NodeNext, Scanned;
    var img := Load(rd, logicalBlocks, memberCount).value;
    LoadParts(rd, logicalBlocks, memberCount);
    ReportSays(rd, img);
    ScannedExact(rd, img);
    ScannedInodes(rd, img);
    ScanInodesExact(rd, img, Refs(img), MAX_INODES);
    UsedAreFiles(rd, img, Refs(img), MAX_INODES);
    CountSetExact(img.bitmap, 4080);
  }
}
