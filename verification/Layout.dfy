/** The on-disk structures of `aetherfs_format.h`, as fields of raw blocks. */
module Layout {
  import opened Bytes
  import opened Crc

  const EXTENTS_MAX: nat := 102
  const SUMS_PER_BLOCK: nat := 1020
  const MAX_INODES: nat := 32640
  const INODES_READ: nat := 8
  const INODE_SIZE: nat := 512
  const ROOT_INO: nat := 16

  const SUPER_SIZE: nat := 256
  const JOURNAL_SIZE: nat := 48

  function PutBlock(b: Block, off: nat, n: nat, v: nat): Block
    requires off + n <= 4096
  {
    Put(b, off, n, v)
  }

  // --------------------------------------------------------------------- checksums

  /** The checksum of a structure, computed with its own checksum field zero. */
  function SelfChecksum(b: seq<Byte>, at: nat): nat
    requires at + 4 <= |b|
  {
    DataChecksum(Put(b, at, 4, 0))
  }

  predicate Sealed(b: seq<Byte>, at: nat)
    requires at + 4 <= |b|
  {
    Get32(b, at) == SelfChecksum(b, at)
  }

  function Seal(b: seq<Byte>, at: nat): (r: seq<Byte>)
    requires at + 4 <= |b|
    ensures |r| == |b|
  {
    Put(b, at, 4, SelfChecksum(b, at))
  }

  /** Storing the checksum makes it match, and touches nothing else. */
  lemma SealSeals(b: seq<Byte>, at: nat)
    requires at + 4 <= |b|
    ensures Sealed(Seal(b, at), at)
    ensures forall i :: 0 <= i < |b| && !(at <= i < at + 4) ==> Seal(b, at)[i] == b[i]
  {
    var sum := SelfChecksum(b, at);
    DataChecksumBound(Put(b, at, 4, 0));
    Pow256Values();
    GetPut(b, at, 4, sum);
    PutOverwrites(Seal(b, at), b, at, 4, 0);
  }

  /** Sealing what is sealed changes nothing. */
  lemma SealSame(b: seq<Byte>, at: nat)
    requires at + 4 <= |b| && Sealed(b, at)
    ensures Seal(b, at) == b
  {
    hide Get, Put, SelfChecksum;
    PutGetSame(b, at, 4);
  }

  // ------------------------------------------------------------------ extent nodes

  const EN_CHECKSUM: nat := 12

  function NodeNext(b: Block): nat { Get64(b, 0) }

  function NodeCount(b: Block): nat { Get32(b, 8) }

  function ExtentLogical(b: Block, i: nat): nat
    requires i < EXTENTS_MAX
  { Get64(b, 16 + 40 * i) }

  function ExtentStart(b: Block, i: nat): nat
    requires i < EXTENTS_MAX
  { Get64(b, 24 + 40 * i) }

  function ExtentSums(b: Block, i: nat): nat
    requires i < EXTENTS_MAX
  { Get64(b, 32 + 40 * i) }

  function ExtentLen(b: Block, i: nat): nat
    requires i < EXTENTS_MAX
  { Get64(b, 40 + 40 * i) }

  // --------------------------------------------------------------- checksum blocks

  const CB_CHECKSUM: nat := 12

  function SumsNext(b: Block): nat { Get64(b, 0) }

  function SumsEntries(b: Block): nat { Get32(b, 8) }

  function SumAt(b: Block, i: nat): nat
    requires i < SUMS_PER_BLOCK
  { Get32(b, 16 + 4 * i) }

  // ------------------------------------------------------------------------ inodes

  type Inode = b: seq<Byte> | |b| == 512 witness seq(512, _ => 0)

  const I_CHECKSUM: nat := 100

  function Mode(i: Inode): nat { Get16(i, 0) }

  function Size(i: Inode): nat { Get64(i, 12) }

  function Blocks(i: Inode): nat { Get64(i, 20) }

  function ExtentRoot(i: Inode): nat { Get64(i, 52) }

  /** `S_ISDIR` and `S_ISREG` */
  predicate IsDir(mode: nat) { mode / 4096 % 16 == 4 }

  predicate IsReg(mode: nat) { mode / 4096 % 16 == 8 }

  /** Of the sixteen file types above the twelve permission bits, type 4 is a directory
      and type 8 a regular file, and no other is either. */
  lemma TypesExact(kind: nat, permissions: nat)
    requires kind < 16 && permissions < 4096
    ensures IsDir(kind * 4096 + permissions) <==> kind == 4
    ensures IsReg(kind * 4096 + permissions) <==> kind == 8
  {
    DivModUnique(kind, permissions, 4096);
  }

  // ------------------------------------------------------------------------ bitmap

  function BitmapTotal(b: Block): nat { Get32(b, 4) }

  function BitmapSetBits(b: Block): nat { Get32(b, 8) }

  predicate BitSet(b: Block, i: nat)
    requires i < MAX_INODES
  {
    b[16 + i / 8] / Pow2(i % 8) % 2 == 1
  }

  function BitsIn(x: nat): nat {
    if x == 0 then 0 else x % 2 + BitsIn(x / 2)
  }

  /** Set bits in the first n bytes of the map. */
  function CountSet(b: Block, n: nat): nat
    requires n <= 4080
    decreases n, b
  {
    if n == 0 then 0 else CountSet(b, n - 1) + BitsIn(b[16 + n - 1])
  }

  method CountSetLoop(b: Block) returns (count: nat)
    ensures count == CountSet(b, 4080)
  {
    count := 0;
    for index := 0 to 4080
      invariant count == CountSet(b, index)
    {
      count := count + BitsIn(b[16 + index]);
    }
  }
}
