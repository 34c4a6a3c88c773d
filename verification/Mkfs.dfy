/** The eight bootstrap blocks `aetherfs_run_mkfs` writes, and its own checks of
    them. */
module Mkfs {
  import opened Bytes
  import opened Crc
  import opened Records
  import opened Layout
  import opened V = Validator
  import opened Loader

  const BLOCKS_PER_AG: nat := 2097152
  const DIR_MODE: nat := 0x41ED
  const F_COW: nat := 1
  const F_APPEND: nat := 0x20
  const FT_DIR: Byte := 2

  type Word16 = x: nat | x < 0x1_0000
  type Word32 = x: nat | x < U32
  type Word64 = x: nat | x < U64
  type Uuid = x: nat | x < Pow256(16)

  /** The options of a run, and what it asks of its surroundings: a random uuid,
      the user and group, the time. */
  datatype Options = Options(blockSize: nat, mode: Word16, uuid: Uuid, uid: Word32, gid: Word32, time: Word64, force: bool)

  // --------------------------------------------------------------------- the superblock

  /** `aetherfs_mode_features` */
  function Features(mode: Word16): Word16 {
    if mode == 2 then F_APPEND else if mode == 1 then 0 else F_COW
  }

  function BlocksPerGroup(blocks: nat): Word32 {
    if blocks % U32 < BLOCKS_PER_AG then blocks % U32 else BLOCKS_PER_AG
  }

  function GroupCount(blocks: nat): nat {
    (blocks + BLOCKS_PER_AG - 1) % U64 / BLOCKS_PER_AG % U32
  }

  /** The group count is the least number of groups of 2097152 blocks that hold all
      blocks, as a 32-bit number. */
  lemma GroupsExact(blocks: nat, g: nat)
    requires blocks + 2097152 <= U64 && g * 2097152 >= blocks && (g > 0 ==> (g - 1) * 2097152 < blocks)
    ensures GroupCount(blocks) == g % U32
  {
  }

  /** The groups of a new image hold all its blocks exactly when it has at most one
      group's worth, or when its size modulo 2^32, which is what the group size is taken
      from, is at least that. */
  lemma GroupsCover(blocks: nat)
    requires 8 <= blocks < 0x8_0000_0000_0000
    ensures BlocksPerGroup(blocks) * GroupCount(blocks) >= blocks <==> blocks <= 2097152 || blocks % U32 >= 2097152
  {
    hide BlocksPerGroup, GroupCount;
    GroupSize(blocks);
    if blocks <= 2097152 {
      GroupsExact(blocks, 1);
    } else if blocks % U32 >= 2097152 {
      FullGroups(blocks);
    } else {
      CutGroups(blocks, blocks / U32, blocks % U32);
    }
  }

  lemma FullGroups(blocks: nat)
    requires blocks < 0x8_0000_0000_0000
    ensures 2097152 * GroupCount(blocks) >= blocks
  {
    hide GroupCount;
    GroupsExact(blocks, (blocks + 2097151) / 2097152);
  }

  lemma CutGroups(blocks: nat, q: nat, r: nat)
    requires 2097152 < blocks < 0x8_0000_0000_0000 && blocks == q * U32 + r && r < 2097152
    ensures r * GroupCount(blocks) < blocks
  {
    hide GroupCount;
    var g := q * 2048 + if r > 0 then 1 else 0;
    GroupsExact(blocks, g);
    if r > 0 {
      ShortGroups(q, r, g);
    }
  }

  lemma GroupSize(blocks: nat)
    ensures BlocksPerGroup(blocks) == if blocks % U32 < 2097152 then blocks % U32 else 2097152
  {
  }

  lemma ShortGroups(q: nat, r: nat, g: nat)
    requires q > 0 && 0 < r < 2097152 && g == q * 2048 + 1
    ensures r * g < q * U32 + r
  {
    var d := 2097152 - r;
    assert r * g == 2097152 * g - d * g;
    assert 2097152 * g == q * U32 + 2097152;
    assert d * g > d * 1;
  }

  function SuperHead(mode: Word16, blocks: nat): seq<Field>
    requires DATA_START <= blocks
  {
    [Field(0, 4, MAGIC), Field(4, 4, VERSION), Field(8, 4, 4096), Field(12, 8, blocks),
     Field(20, 8, blocks - DATA_START), Field(28, 4, BlocksPerGroup(blocks)), Field(32, 4, GroupCount(blocks)), Field(36, 4, 1),
     Field(40, 2, mode), Field(42, 2, Features(mode))]
  }

  function SuperTail(): seq<Field> {
    [Field(64, 4, 1), Field(68, 4, 1), Field(72, 8, CHECKPOINT_BLOCK), Field(136, 8, JOURNAL_BLOCK),
     Field(144, 8, ROOT_INODE_BLOCK), Field(152, 4, 1), Field(156, 4, MAX_INODES), Field(160, 8, INODE_BITMAP_BLOCK),
     Field(168, 8, 0), Field(176, 8, FREE_EXTENT_BLOCK), Field(184, 8, 0)]
  }

  function Zeros(n: nat): seq<Byte> {
    seq(n, _ => 0)
  }

  function SuperBase(mode: Word16, blocks: nat): Super
    requires DATA_START <= blocks
  {
    Write(Write(Zeros(256), SuperHead(mode, blocks)), SuperTail())
  }

  /** `aetherfs_init_super`, then the uuid, then the checksum again. */
  function InitSuper(o: Options, blocks: nat): Super
    requires DATA_START <= blocks
  {
    Seal(Put(Seal(SuperBase(o.mode, blocks), S_CHECKSUM), 48, 16, o.uuid), S_CHECKSUM)
  }

  /** What the superblock reads back. */
  ghost predicate SuperReads(s: Super, o: Options, blocks: nat) {
    && Sealed(s, S_CHECKSUM) && Get(s, 48, 16) == o.uuid
    && Get32(s, 0) == MAGIC && Get32(s, 4) == VERSION && Get32(s, 8) == 4096 && Get64(s, 12) == blocks
    && Get64(s, 20) == blocks - DATA_START && Get32(s, 28) == BlocksPerGroup(blocks) && Get32(s, 32) == GroupCount(blocks)
    && Get32(s, 36) == 1 && Get16(s, 40) == o.mode && Get16(s, 42) == (if o.mode == 2 then 0x20 else if o.mode == 1 then 0 else 1)
    && Get32(s, 64) == 1 && Get32(s, 68) == 1 && Get64(s, 72) == CHECKPOINT_BLOCK && Get64(s, 136) == JOURNAL_BLOCK && Get64(s, 144) == ROOT_INODE_BLOCK
    && Get32(s, 152) == 1 && Get32(s, 156) == MAX_INODES
    && Get64(s, 160) == INODE_BITMAP_BLOCK && Get64(s, 168) == 0 && Get64(s, 176) == FREE_EXTENT_BLOCK && Get64(s, 184) == 0
  }

  lemma HeadAscends(mode: Word16, blocks: nat)
    requires DATA_START <= blocks
    ensures InOrder(SuperHead(mode, blocks))
  {
    hide GroupCount, BlocksPerGroup, Features;
  }

  lemma TailAscends()
    ensures InOrder(SuperTail())
  {
  }

  lemma HeadField(mode: Word16, blocks: nat, i: nat)
    requires DATA_START <= blocks < U64 && i < 10
    ensures var f := SuperHead(mode, blocks)[i]; Get(SuperBase(mode, blocks), f.off, f.n) == f.v
  {
    hide Get, Put, Write, GroupCount, BlocksPerGroup, Features, InOrder;
    var head := SuperHead(mode, blocks);
    Pow256Values();
    HeadAscends(mode, blocks);
    TailAscends();
    GroupBound(blocks);
    WriteGets(Zeros(256), head, i);
    WriteBeside(Write(Zeros(256), head), SuperTail(), head[i].off, head[i].n);
  }

  lemma GroupBound(blocks: nat)
    ensures GroupCount(blocks) < U32
  {
  }

  lemma TailField(mode: Word16, blocks: nat, i: nat)
    requires DATA_START <= blocks < U64 && i < 11
    ensures var f := SuperTail()[i]; Get(SuperBase(mode, blocks), f.off, f.n) == f.v
  {
    hide Get, Put, Write, InOrder;
    Pow256Values();
    TailAscends();
    WriteGets(Write(Zeros(256), SuperHead(mode, blocks)), SuperTail(), i);
  }

  /** Sealing and the uuid leave the other fields alone. */
  lemma SuperFrame(o: Options, blocks: nat, off: nat, n: nat)
    requires DATA_START <= blocks && off + n <= 256 && (off + n <= S_CHECKSUM || 64 <= off)
    ensures Get(InitSuper(o, blocks), off, n) == Get(SuperBase(o.mode, blocks), off, n)
  {
    hide Get, Put, SuperBase, SelfChecksum;
    var b := SuperBase(o.mode, blocks);
    var withId := Put(Seal(b, S_CHECKSUM), 48, 16, o.uuid);
    GetFrame(InitSuper(o, blocks), b, off, n);
  }

  lemma InitSuperReads(o: Options, blocks: nat)
    requires DATA_START <= blocks < U64
    ensures SuperReads(InitSuper(o, blocks), o, blocks)
  {
    hide Get, Put, SuperBase, InitSuper, GroupCount, BlocksPerGroup, Sealed;
    SuperSealed(o, blocks);
    SuperIdentity(o, blocks);
    SuperNumbers(o, blocks);
    SuperPointers(o, blocks);
  }

  lemma SuperSealed(o: Options, blocks: nat)
    requires DATA_START <= blocks
    ensures Sealed(InitSuper(o, blocks), S_CHECKSUM)
  {
    hide Get, Put, SuperBase, Seal, Sealed;
    SealSeals(Put(Seal(SuperBase(o.mode, blocks), S_CHECKSUM), 48, 16, o.uuid), S_CHECKSUM);
  }

  lemma SuperIdentity(o: Options, blocks: nat)
    requires DATA_START <= blocks
    ensures Get(InitSuper(o, blocks), 48, 16) == o.uuid
  {
    hide Get, Put, SuperBase, SelfChecksum;
    var b := Seal(SuperBase(o.mode, blocks), S_CHECKSUM);
    GetPut(b, 48, 16, o.uuid);
    GetFrame(InitSuper(o, blocks), Put(b, 48, 16, o.uuid), 48, 16);
  }

  lemma SuperNumbers(o: Options, blocks: nat)
    requires DATA_START <= blocks < U64
    ensures var s := InitSuper(o, blocks);
            && Get32(s, 0) == MAGIC && Get32(s, 4) == VERSION && Get32(s, 8) == 4096 && Get64(s, 12) == blocks
            && Get64(s, 20) == blocks - DATA_START && Get32(s, 28) == BlocksPerGroup(blocks) && Get32(s, 32) == GroupCount(blocks)
            && Get32(s, 36) == 1 && Get16(s, 40) == o.mode && Get16(s, 42) == Features(o.mode)
  {
    hide Get, Put, SuperBase, InitSuper, GroupCount, BlocksPerGroup, Features;
    forall i | 0 <= i < 10
      ensures var f := SuperHead(o.mode, blocks)[i]; Get(InitSuper(o, blocks), f.off, f.n) == f.v
    {
      var f := SuperHead(o.mode, blocks)[i];
      HeadField(o.mode, blocks, i);
      SuperFrame(o, blocks, f.off, f.n);
    }
    var h := SuperHead(o.mode, blocks);
    assert h[0].off == 0 && h[1].off == 4 && h[2].off == 8 && h[3].off == 12 && h[4].off == 20;
    assert h[5].off == 28 && h[6].off == 32 && h[7].off == 36 && h[8].off == 40 && h[9].off == 42;
  }

  lemma SuperPointers(o: Options, blocks: nat)
    requires DATA_START <= blocks < U64
    ensures var s := InitSuper(o, blocks);
            && Get32(s, 64) == 1 && Get32(s, 68) == 1 && Get64(s, 72) == CHECKPOINT_BLOCK && Get64(s, 136) == JOURNAL_BLOCK && Get64(s, 144) == ROOT_INODE_BLOCK
            && Get32(s, 152) == 1 && Get32(s, 156) == MAX_INODES
            && Get64(s, 160) == INODE_BITMAP_BLOCK && Get64(s, 168) == 0 && Get64(s, 176) == FREE_EXTENT_BLOCK && Get64(s, 184) == 0
  {
    hide Get, Put, SuperBase, InitSuper;
    forall i | 0 <= i < 11
      ensures var f := SuperTail()[i]; Get(InitSuper(o, blocks), f.off, f.n) == f.v
    {
      var f := SuperTail()[i];
      TailField(o.mode, blocks, i);
      SuperFrame(o, blocks, f.off, f.n);
    }
    var t := SuperTail();
    assert t[0].off == 64 && t[1].off == 68 && t[2].off == 72 && t[3].off == 136 && t[4].off == 144 && t[5].off == 152 && t[6].off == 156;
    assert t[7].off == 160 && t[8].off == 168 && t[9].off == 176 && t[10].off == 184;
  }

  // ------------------------------------------------------------------- the checkpoint root

  function RootHead(s: Super): seq<Field> {
    [Field(0, 4, CHECKPOINT_MAGIC), Field(4, 4, CHECKPOINT_VERSION), Field(12, 4, Get32(s, 152)), Field(16, 4, Get32(s, 32)),
     Field(20, 4, 2), Field(24, 8, SUPER_BLOCK), Field(32, 8, Get64(s, 144)), Field(40, 8, ROOT_DIR_BLOCK),
     Field(48, 8, Get64(s, 136)), Field(56, 8, Get64(s, 160)), Field(64, 8, Get64(s, 176))]
  }

  function RootTail(s: Super, blocks: nat): seq<Field> {
    [Field(72, 8, Get64(s, 160)), Field(80, 8, Get64(s, 168)), Field(88, 8, Get64(s, 184)), Field(96, 8, Get64(s, 192)),
     Field(104, 8, Get64(s, 200)), Field(112, 8, SUPER_BLOCK), Field(120, 8, CHECKPOINT_BLOCK), Field(128, 8, DATA_START),
     Field(136, 8, blocks)]
  }

  function RootBase(s: Super, blocks: nat): Block {
    Write(Write(Zeros(4096), RootHead(s)), RootTail(s, blocks))
  }

  /** `aetherfs_init_checkpoint_root` */
  function InitCheckpoint(s: Super, blocks: nat): Block {
    Seal(RootBase(s, blocks), CR_CHECKSUM)
  }

  lemma RootHeadAscends(s: Super)
    ensures InOrder(RootHead(s))
  {
    hide Get32, Get64;
  }

  lemma RootTailAscends(s: Super, blocks: nat)
    ensures InOrder(RootTail(s, blocks))
  {
    hide Get32, Get64;
  }

  lemma RootHeadField(s: Super, blocks: nat, i: nat)
    requires i < 11
    ensures var f := RootHead(s)[i]; Get(InitCheckpoint(s, blocks), f.off, f.n) == f.v
  {
    hide Get, Put, Write, InOrder, SelfChecksum, Get32, Get64;
    var f := RootHead(s)[i];
    Pow256Values();
    RootHeadAscends(s);
    RootTailAscends(s, blocks);
    WriteGets(Zeros(4096), RootHead(s), i);
    WriteBeside(Write(Zeros(4096), RootHead(s)), RootTail(s, blocks), f.off, f.n);
    GetFrame(InitCheckpoint(s, blocks), RootBase(s, blocks), f.off, f.n);
  }

  lemma RootTailField(s: Super, blocks: nat, i: nat)
    requires i < 9 && blocks < U64
    ensures var f := RootTail(s, blocks)[i]; Get(InitCheckpoint(s, blocks), f.off, f.n) == f.v
  {
    hide Get, Put, Write, InOrder, SelfChecksum, Get32, Get64;
    var f := RootTail(s, blocks)[i];
    Pow256Values();
    RootTailAscends(s, blocks);
    WriteGets(Write(Zeros(4096), RootHead(s)), RootTail(s, blocks), i);
    GetFrame(InitCheckpoint(s, blocks), RootBase(s, blocks), f.off, f.n);
  }

  /** The reserved roots stay zero. */
  lemma RootRest(s: Super, blocks: nat, off: nat)
    requires 144 <= off <= 160
    ensures Get64(InitCheckpoint(s, blocks), off) == 0
  {
    hide Get, Put, Write, InOrder, SelfChecksum, Get32;
    RootHeadAscends(s);
    RootTailAscends(s, blocks);
    WriteBeside(Zeros(4096), RootHead(s), off, 8);
    WriteBeside(Write(Zeros(4096), RootHead(s)), RootTail(s, blocks), off, 8);
    GetFrame(InitCheckpoint(s, blocks), RootBase(s, blocks), off, 8);
    GetZero(Zeros(4096), off, 8);
  }

  /** The checkpoint root mirrors the superblock it is made from. */
  ghost predicate RootReads(c: Block, s: Super, blocks: nat) {
    && Sealed(c, CR_CHECKSUM)
    && Get32(c, 0) == CHECKPOINT_MAGIC && Get32(c, 4) == CHECKPOINT_VERSION
    && Get32(c, 12) == Get32(s, 152) && Get32(c, 16) == Get32(s, 32) && Get32(c, 20) == 2
    && Get64(c, 24) == SUPER_BLOCK && Get64(c, 32) == Get64(s, 144) && Get64(c, 40) == ROOT_DIR_BLOCK
    && Get64(c, 48) == Get64(s, 136) && Get64(c, 56) == Get64(s, 160) && Get64(c, 64) == Get64(s, 176)
    && Get64(c, 72) == Get64(s, 160) && Get64(c, 80) == Get64(s, 168) && Get64(c, 88) == Get64(s, 184)
    && Get64(c, 96) == Get64(s, 192) && Get64(c, 104) == Get64(s, 200)
    && Get64(c, 112) == SUPER_BLOCK && Get64(c, 120) == CHECKPOINT_BLOCK
    && Get64(c, 128) == DATA_START && Get64(c, 136) == blocks
    && Get64(c, 144) == 0 && Get64(c, 152) == 0 && Get64(c, 160) == 0
  }

  lemma InitCheckpointReads(s: Super, blocks: nat)
    requires blocks < U64
    ensures RootReads(InitCheckpoint(s, blocks), s, blocks)
  {
    hide Get, Put, Write, SelfChecksum, InitCheckpoint, Sealed;
    RootSealed(s, blocks);
    RootHeadReads(s, blocks);
    RootTailReads(s, blocks);
    RootRest(s, blocks, 144);
    RootRest(s, blocks, 152);
    RootRest(s, blocks, 160);
  }

  lemma RootSealed(s: Super, blocks: nat)
    ensures Sealed(InitCheckpoint(s, blocks), CR_CHECKSUM)
  {
    hide Get, Put, RootBase, Seal, Sealed;
    SealSeals(RootBase(s, blocks), CR_CHECKSUM);
  }

  lemma RootHeadReads(s: Super, blocks: nat)
    ensures var c := InitCheckpoint(s, blocks);
            && Get32(c, 0) == CHECKPOINT_MAGIC && Get32(c, 4) == CHECKPOINT_VERSION
            && Get32(c, 12) == Get32(s, 152) && Get32(c, 16) == Get32(s, 32) && Get32(c, 20) == 2
            && Get64(c, 24) == SUPER_BLOCK && Get64(c, 32) == Get64(s, 144) && Get64(c, 40) == ROOT_DIR_BLOCK
            && Get64(c, 48) == Get64(s, 136) && Get64(c, 56) == Get64(s, 160) && Get64(c, 64) == Get64(s, 176)
  {
    hide Get, Put, Write, InitCheckpoint;
    forall i | 0 <= i < 11
      ensures var f := RootHead(s)[i]; Get(InitCheckpoint(s, blocks), f.off, f.n) == f.v
    {
      RootHeadField(s, blocks, i);
    }
    var h := RootHead(s);
    assert h[0].off == 0 && h[1].off == 4 && h[2].off == 12 && h[3].off == 16 && h[4].off == 20 && h[5].off == 24;
    assert h[6].off == 32 && h[7].off == 40 && h[8].off == 48 && h[9].off == 56 && h[10].off == 64;
  }

  lemma RootTailReads(s: Super, blocks: nat)
    requires blocks < U64
    ensures var c := InitCheckpoint(s, blocks);
            && Get64(c, 72) == Get64(s, 160) && Get64(c, 80) == Get64(s, 168) && Get64(c, 88) == Get64(s, 184)
            && Get64(c, 96) == Get64(s, 192) && Get64(c, 104) == Get64(s, 200)
            && Get64(c, 112) == SUPER_BLOCK && Get64(c, 120) == CHECKPOINT_BLOCK
            && Get64(c, 128) == DATA_START && Get64(c, 136) == blocks
  {
    hide Get, Put, Write, InitCheckpoint;
    forall i | 0 <= i < 9
      ensures var f := RootTail(s, blocks)[i]; Get(InitCheckpoint(s, blocks), f.off, f.n) == f.v
    {
      RootTailField(s, blocks, i);
    }
    var t := RootTail(s, blocks);
    assert t[0].off == 72 && t[1].off == 80 && t[2].off == 88 && t[3].off == 96 && t[4].off == 104;
    assert t[5].off == 112 && t[6].off == 120 && t[7].off == 128 && t[8].off == 136;
  }

  // ------------------------------------------------------------------------ the root inode

  function InodeFields(o: Options): seq<Field> {
    [Field(0, 2, DIR_MODE), Field(2, 2, 2), Field(4, 4, o.uid), Field(8, 4, o.gid), Field(12, 8, 4096), Field(20, 8, 1),
     Field(28, 8, o.time), Field(36, 8, o.time), Field(44, 8, o.time), Field(52, 8, ROOT_DIR_BLOCK), Field(60, 4, 2),
     Field(64, 4, F_COW), Field(84, 8, ROOT_INO)]
  }

  /** `aetherfs_init_root_inode` */
  function InitInode(o: Options): Inode {
    Seal(Write(Zeros(512), InodeFields(o)), I_CHECKSUM)
  }

  lemma InodeAscends(o: Options)
    ensures InOrder(InodeFields(o))
  {
  }

  lemma InodeField(o: Options, i: nat)
    requires i < 13
    ensures var f := InodeFields(o)[i]; Get(InitInode(o), f.off, f.n) == f.v
  {
    hide Get, Put, Write, InOrder, SelfChecksum;
    var f := InodeFields(o)[i];
    Pow256Values();
    InodeAscends(o);
    WriteGets(Zeros(512), InodeFields(o), i);
    GetFrame(InitInode(o), Write(Zeros(512), InodeFields(o)), f.off, f.n);
  }

  /** What the root inode reads back: a directory of one block with two links, owned
      and dated as asked, its own parent. */
  ghost predicate RootInodeReads(i: Inode, o: Options) {
    && Sealed(i, I_CHECKSUM) && Mode(i) == 0x41ED && Get16(i, 2) == 2 && Get32(i, 4) == o.uid && Get32(i, 8) == o.gid
    && Size(i) == 4096 && Blocks(i) == 1 && Get64(i, 28) == o.time && Get64(i, 36) == o.time && Get64(i, 44) == o.time
    && ExtentRoot(i) == ROOT_DIR_BLOCK && Get32(i, 60) == 2 && Get32(i, 64) == 1 && Get64(i, 84) == 16
  }

  lemma InitInodeReads(o: Options)
    ensures RootInodeReads(InitInode(o), o)
  {
    hide Get, Put, Write, InOrder, SelfChecksum, Sealed, InitInode;
    InodeSealed(o);
    forall i | 0 <= i < 13
      ensures var f := InodeFields(o)[i]; Get(InitInode(o), f.off, f.n) == f.v
    {
      InodeField(o, i);
    }
    var h := InodeFields(o);
    assert h[0].off == 0 && h[1].off == 2 && h[2].off == 4 && h[3].off == 8 && h[4].off == 12 && h[5].off == 20 && h[6].off == 28;
    assert h[7].off == 36 && h[8].off == 44 && h[9].off == 52 && h[10].off == 60 && h[11].off == 64 && h[12].off == 84;
  }

  lemma InodeSealed(o: Options)
    ensures Sealed(InitInode(o), I_CHECKSUM)
  {
    hide Get, Put, Write, SelfChecksum, Sealed, Seal;
    SealSeals(Write(Zeros(512), InodeFields(o)), I_CHECKSUM);
  }

  // --------------------------------------------------------------------------- the journal

  function JournalFields(): seq<Field> {
    [Field(0, 8, JOURNAL_BLOCK), Field(8, 8, JOURNAL_BLOCK), Field(16, 8, JOURNAL_BLOCK), Field(24, 8, JOURNAL_BLOCK)]
  }

  /** `aetherfs_init_journal` */
  function InitJournal(): Journal {
    var j := Write(Zeros(48), JournalFields());
    Put(j, IL_CHECKSUM, 4, DataChecksum(j[..IL_CHECKSUM]))
  }

  /** The journal is sealed, starts, ends and stands at its own block, and has nothing
      outstanding. */
  lemma InitJournalReads()
    ensures JournalSealed(InitJournal()) && Get32(InitJournal(), 36) == 0
    ensures var j := InitJournal();
            Get64(j, 0) == JOURNAL_BLOCK && Get64(j, 8) == JOURNAL_BLOCK && Get64(j, 16) == JOURNAL_BLOCK && Get64(j, 24) == JOURNAL_BLOCK
  {
    hide Get, Put, Write, DataChecksum;
    var j := Write(Zeros(48), JournalFields());
    var sum := DataChecksum(j[..IL_CHECKSUM]);
    DataChecksumBound(j[..IL_CHECKSUM]);
    Pow256Values();
    GetPut(j, IL_CHECKSUM, 4, sum);
    assert InitJournal()[..IL_CHECKSUM] == j[..IL_CHECKSUM];
    WriteBeside(Zeros(48), JournalFields(), 36, 4);
    GetZero(Zeros(48), 36, 4);
    GetPutOther(j, IL_CHECKSUM, 4, sum, 36, 4);
    forall i | 0 <= i < 4
      ensures Get(InitJournal(), 8 * i, 8) == JOURNAL_BLOCK
    {
      WriteGets(Zeros(48), JournalFields(), i);
      GetPutOther(j, IL_CHECKSUM, 4, sum, 8 * i, 8);
    }
    assert Get(InitJournal(), 8 * 0, 8) == JOURNAL_BLOCK && Get(InitJournal(), 8 * 1, 8) == JOURNAL_BLOCK;
    assert Get(InitJournal(), 8 * 2, 8) == JOURNAL_BLOCK && Get(InitJournal(), 8 * 3, 8) == JOURNAL_BLOCK;
  }

  // ---------------------------------------------------------------------- the inode bitmap

  function BitmapFields(): seq<Field> {
    [Field(4, 4, MAX_INODES), Field(8, 4, 1), Field(16, 1, 1)]
  }

  /** `aetherfs_init_inode_bitmap` */
  function InitBitmap(): Block {
    Seal(Write(Zeros(4096), BitmapFields()), BB_CHECKSUM)
  }

  /** Only the first bit of the map is set. */
  ghost predicate FirstBitOnly(b: Block) {
    b[16] == 1 && forall k :: 17 <= k < 4096 ==> b[k] == 0
  }

  lemma InitBitmapReads()
    ensures var b := InitBitmap();
            Sealed(b, BB_CHECKSUM) && BitmapTotal(b) == MAX_INODES && BitmapSetBits(b) == 1 && FirstBitOnly(b)
  {
    hide Put, Write, SelfChecksum, Sealed, InOrder;
    var base := Write(Zeros(4096), BitmapFields());
    Pow256Values();
    BitmapAscends();
    SealSeals(base, BB_CHECKSUM);
    WriteGets(Zeros(4096), BitmapFields(), 0);
    WriteGets(Zeros(4096), BitmapFields(), 1);
    OneByte(base);
    forall k | 17 <= k < 4096
      ensures base[k] == 0
    {
      WriteKeeps(Zeros(4096), BitmapFields(), k);
    }
    GetFrame(InitBitmap(), base, 4, 4);
    GetFrame(InitBitmap(), base, 8, 4);
  }

  lemma BitmapAscends()
    ensures InOrder(BitmapFields())
  {
  }

  lemma OneByte(base: Block)
    requires base == Write(Zeros(4096), BitmapFields())
    ensures base[16] == 1
  {
    hide Put, Write, InOrder;
    BitmapAscends();
    WriteGets(Zeros(4096), BitmapFields(), 2);
    assert Get(base, 16, 1) == base[16] + 256 * Get(base, 17, 0);
  }

  lemma OneBitCounted(b: Block, n: nat)
    requires FirstBitOnly(b) && 1 <= n <= 4080
    ensures CountSet(b, n) == 1
    decreases n
  {
    if n == 1 {
      assert CountSet(b, 0) == 0 && BitsIn(1) == 1;
    } else {
      OneBitCounted(b, n - 1);
    }
  }

  lemma OnlyFirstBit(b: Block, i: nat)
    requires FirstBitOnly(b) && i < MAX_INODES
    ensures BitSet(b, i) <==> i == 0
  {
    hide Pow2;
    if i < 8 {
      assert b[16 + i / 8] == 1;
      OneShifted(i);
    } else {
      assert b[16 + i / 8] == 0;
      NoneShifted(i % 8);
    }
  }

  lemma OneShifted(k: nat)
    ensures 1 / Pow2(k) % 2 == if k == 0 then 1 else 0
  {
    if k > 0 {
      OneDivided(2 * Pow2(k - 1));
    }
  }

  lemma OneDivided(p: nat)
    requires p >= 2
    ensures 1 / p == 0
  {
  }

  lemma NoneShifted(k: nat)
    ensures 0 / Pow2(k) % 2 == 0
  {
  }

  // -------------------------------------------------------------------------- the free list

  function FreeFields(blocks: nat): seq<Field>
    requires DATA_START <= blocks
  {
    [Field(8, 4, 1), Field(24, 8, DATA_START), Field(40, 8, blocks - DATA_START)]
  }

  /** `aetherfs_init_free_extents` */
  function InitFree(blocks: nat): Block
    requires DATA_START <= blocks
  {
    Seal(Write(Zeros(4096), FreeFields(blocks)), EN_CHECKSUM)
  }

  lemma InitFreeReads(blocks: nat)
    requires DATA_START <= blocks < U64
    ensures var f := InitFree(blocks);
            && Sealed(f, EN_CHECKSUM) && NodeNext(f) == 0 && NodeCount(f) == 1
            && ExtentStart(f, 0) == DATA_START && ExtentLen(f, 0) == blocks - DATA_START
  {
    hide Get, Put, Write, SelfChecksum, Sealed;
    var base := Write(Zeros(4096), FreeFields(blocks));
    Pow256Values();
    SealSeals(base, EN_CHECKSUM);
    WriteGets(Zeros(4096), FreeFields(blocks), 0);
    WriteGets(Zeros(4096), FreeFields(blocks), 1);
    WriteGets(Zeros(4096), FreeFields(blocks), 2);
    WriteBeside(Zeros(4096), FreeFields(blocks), 0, 8);
    GetZero(Zeros(4096), 0, 8);
    GetFrame(InitFree(blocks), base, 0, 8);
    GetFrame(InitFree(blocks), base, 8, 4);
    GetFrame(InitFree(blocks), base, 24, 8);
    GetFrame(InitFree(blocks), base, 40, 8);
  }

  // --------------------------------------------------------------------- the root directory

  /** A record for inode number ino; `name` holds one or two bytes, the first lowest. */
  function RecordFields(off: nat, ino: Word64, rec: Word16, len: Word16, kind: Byte, name: Word16): seq<Field> {
    [Field(off, 8, ino), Field(off + 8, 2, rec), Field(off + 10, 2, len), Field(off + 12, 1, kind), Field(off + 14, 2, name)]
  }

  /** The block with the checksum byte of the record at off filled in. */
  function SealEntry(dir: Block, off: nat, nameLen: nat): Block
    requires off + DIR_BASE + nameLen <= 4096
  {
    dir[off + 13 := EntryChecksum(dir, off, nameLen)]
  }

  function AddRecord(dir: Block, off: nat, ino: Word64, rec: Word16, len: Word16, kind: Byte, name: Word16): Block
    requires off + 16 <= 4096 && len <= 2
  {
    SealEntry(Write(dir, RecordFields(off, ino, rec, len, kind, name)), off, len)
  }

  const DOTS: Word16 := 0x2E2E

  /** `aetherfs_init_root_dir` */
  function InitDir(): Block {
    AddRecord(AddRecord(Zeros(4096), 0, ROOT_INO, 16, 1, FT_DIR, DOT), 16, ROOT_INO, 4080, 2, FT_DIR, DOTS)
  }

  /** A sealed record carries its checksum, wherever else the block changes. */
  lemma SealEntrySeals(dir: Block, dir': Block, off: nat, nameLen: nat)
    requires off + DIR_BASE + nameLen <= 4096
    requires forall k :: off <= k < off + DIR_BASE + nameLen ==> dir'[k] == SealEntry(dir, off, nameLen)[k]
    ensures dir'[off + 13] == EntryChecksum(dir', off, nameLen)
  {
    hide DataChecksum;
    assert dir'[off..off + DIR_BASE + nameLen][13 := 0] == dir[off..off + DIR_BASE + nameLen][13 := 0];
  }

  /** What a record reads back. */
  ghost predicate RecordReads(d: Block, off: nat, ino: nat, rec: nat, len: nat, kind: nat, name: nat) {
    && off + 16 <= 4096 && len <= 2 && d[off + 12] == kind
    && EntryIno(d, off) == ino && EntryRecLen(d, off) == rec && EntryNameLen(d, off) == len
    && d[off + 14] == name % 256 && d[off + 15] == name / 256 && d[off + 13] == EntryChecksum(d, off, len)
  }

  lemma TwoBytes(b: seq<Byte>, off: nat)
    requires off + 2 <= |b|
    ensures var lo: int, hi: int := b[off], b[off + 1]; Get(b, off, 2) == lo + 256 * hi
  {
    assert Get(b, off + 2, 0) == 0;
    assert Get(b, off + 1, 1) == b[off + 1];
  }

  lemma ByteAt(b: seq<Byte>, off: nat)
    requires off < |b|
    ensures Get(b, off, 1) == b[off]
  {
  }

  /** A record reads back, wherever else the block changes. */
  lemma AddRecordReads(dir: Block, off: nat, ino: Word64, rec: Word16, len: Word16, kind: Byte, name: Word16, dir': Block)
    requires off + 16 <= 4096 && len <= 2
    requires forall k :: off <= k < off + 16 ==> dir'[k] == AddRecord(dir, off, ino, rec, len, kind, name)[k]
    ensures RecordReads(dir', off, ino, rec, len, kind, name)
  {
    hide Get, Put, Write, EntryChecksum;
    var fs := RecordFields(off, ino, rec, len, kind, name);
    var w := Write(dir, fs);
    Pow256Values();
    WriteGets(dir, fs, 0);
    WriteGets(dir, fs, 1);
    WriteGets(dir, fs, 2);
    WriteGets(dir, fs, 3);
    WriteGets(dir, fs, 4);
    ByteAt(w, off + 12);
    TwoBytes(w, off + 14);
    GetFrame(dir', w, off, 8);
    GetFrame(dir', w, off + 8, 2);
    GetFrame(dir', w, off + 10, 2);
    SealEntrySeals(w, dir', off, len);
  }

  /** Bytes before the record stay. */
  lemma AddRecordKeeps(dir: Block, off: nat, ino: Word64, rec: Word16, len: Word16, kind: Byte, name: Word16, k: nat)
    requires off + 16 <= 4096 && len <= 2 && k < off
    ensures AddRecord(dir, off, ino, rec, len, kind, name)[k] == dir[k]
  {
    hide Put, Write, EntryChecksum;
    WriteKeeps(dir, RecordFields(off, ino, rec, len, kind, name), k);
  }

  lemma InitDirReads()
    ensures RecordReads(InitDir(), 0, 16, 16, 1, 2, DOT) && RecordReads(InitDir(), 16, 16, 4080, 2, 2, DOTS)
  {
    hide AddRecord, RecordReads;
    var first := AddRecord(Zeros(4096), 0, ROOT_INO, 16, 1, FT_DIR, DOT);
    forall k | 0 <= k < 16
      ensures InitDir()[k] == first[k]
    {
      AddRecordKeeps(first, 16, ROOT_INO, 4080, 2, FT_DIR, DOTS, k);
    }
    AddRecordReads(Zeros(4096), 0, ROOT_INO, 16, 1, FT_DIR, DOT, InitDir());
    AddRecordReads(first, 16, ROOT_INO, 4080, 2, FT_DIR, DOTS, InitDir());
  }

  /** The directory walk accepts the new root and finds no file in it. */
  lemma InitDirScans()
    ensures ScanDir(InitDir(), 0, DirScan({}, false, false)) == Ok(DirScan({}, true, true))
  {
    hide InitDir, EntryIno, EntryRecLen, EntryNameLen, EntryChecksum;
    InitDirReads();
    var d := InitDir();
    assert ScanEntry(d, 0, DirScan({}, false, false)) == Ok(DirScan({}, true, false));
    assert ScanEntry(d, 16, DirScan({}, true, false)) == Ok(DirScan({}, true, true));
    assert ScanDir(d, 4096, DirScan({}, true, true)) == Ok(DirScan({}, true, true));
    assert ScanDir(d, 16, DirScan({}, true, false)) == ScanDir(d, 4096, DirScan({}, true, true));
  }
}
