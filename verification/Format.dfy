/** The packed structures of `aetherfs_format.h`, as the widths of their members in order:
    every field that the model reads or writes lies where its structure has it. */
module Format {
  import opened Bytes
  import opened Layout
  import opened Records
  import opened V = Validator
  import opened Loader
  import opened PoolOpen
  import opened Forms
  import opened Mkfs

  /** The offset of member k of a packed structure. */
  function At(widths: seq<nat>, k: nat): nat
    requires k <= |widths|
  {
    if k == 0 then 0 else At(widths, k - 1) + widths[k - 1]
  }

  function SizeOf(widths: seq<nat>): nat {
    At(widths, |widths|)
  }

  /** The fields of fs are the members ks of the structure. */
  ghost predicate Declared(fs: seq<Field>, widths: seq<nat>, ks: seq<nat>) {
    && |fs| == |ks|
    && forall i :: 0 <= i < |fs| ==> ks[i] < |widths| && fs[i].off == At(widths, ks[i]) && fs[i].n == widths[ks[i]]
  }

  // -------------------------------------------------------------------------- the structures

  /** Magic, version, block size, blocks, free blocks, group size, groups, devices, mode,
      features, checksum, uuid, checkpoint count and mask, eight checkpoints, journal, root
      inode, generation, inodes, four trees, two journals, reserved. */
  const SUPER: seq<nat> := [4, 4, 4, 8, 8, 4, 4, 4, 2, 2, 4, 16, 4, 4, 8, 8, 8, 8, 8, 8, 8, 8, 8, 8, 4, 4, 8, 8, 8, 8, 8, 8, 48]

  /** Mode, links, uid, gid, size, blocks, three times, extent root, link count, flags,
      attributes, reflink, parent, snapshot, checksum, inline length, generation, data,
      inline data. */
  const INODE: seq<nat> := [2, 2, 4, 4, 8, 8, 8, 8, 8, 8, 4, 4, 8, 8, 8, 8, 4, 4, 8, 24, 372]

  /** Logical start, physical start, checksum block, length, flags, reserved. */
  const EXTENT: seq<nat> := [8, 8, 8, 8, 4, 4]

  /** Next, count, checksum; then the extents or sums. */
  const NODE_HEAD: seq<nat> := [8, 4, 4]

  /** Inode, record length, name length, type, checksum; then the name. */
  const DIR_ENTRY: seq<nat> := [8, 2, 2, 1, 1]

  /** Start, end, head, commit, total, outstanding, checksum, reserved. */
  const JOURNAL: seq<nat> := [8, 8, 8, 8, 4, 4, 4, 4]

  /** Checksum, bits, bits set, reserved; then the bits. */
  const BITMAP_HEAD: seq<nat> := [4, 4, 4, 4]

  /** Uuid, blocks, data blocks, class, role, index, reserved. */
  const MEMBER: seq<nat> := [16, 8, 8, 4, 4, 4, 4]

  /** Magic, version, checksum, profile, members, index, stripe, flags, four masks, logical
      blocks and data blocks, uuid; then eight members and 360 reserved bytes. */
  const LABEL_HEAD: seq<nat> := [4, 4, 4, 4, 4, 4, 4, 4, 4, 4, 4, 4, 8, 8, 16]

  /** Magic, version, checksum, generation, groups, regions, then eighteen block numbers and
      the reserved rest. */
  const CHECKPOINT: seq<nat> := [4, 4, 4, 4, 4, 4, 8, 8, 8, 8, 8, 8, 8, 8, 8, 8, 8, 8, 8, 8, 8, 8, 8, 8, 3928]

  /** The offsets of all members, the last being the size. */
  ghost predicate Offsets(widths: seq<nat>, offs: seq<nat>) {
    && |offs| == |widths| + 1 && offs[0] == 0
    && forall k :: 0 <= k < |widths| ==> offs[k + 1] == offs[k] + widths[k]
  }

  lemma {:induction false} OffsetsAt(widths: seq<nat>, offs: seq<nat>, k: nat)
    requires Offsets(widths, offs) && k <= |widths|
    ensures At(widths, k) == offs[k]
    decreases k
  {
    if k > 0 {
      OffsetsAt(widths, offs, k - 1);
      assert offs[k - 1 + 1] == offs[k - 1] + widths[k - 1];
    }
  }

  const SUPER_AT: seq<nat> :=
    [0, 4, 8, 12, 20, 28, 32, 36, 40, 42, 44, 48, 64, 68, 72, 80, 88, 96, 104, 112, 120, 128,
     136, 144, 152, 156, 160, 168, 176, 184, 192, 200, 208, 256]

  lemma SuperStarts()
    ensures |SUPER_AT| == |SUPER| + 1
    ensures forall k :: 0 <= k <= |SUPER| ==> At(SUPER, k) == SUPER_AT[k]
  {
    assert Offsets(SUPER, SUPER_AT);
    forall k | 0 <= k <= |SUPER|
      ensures At(SUPER, k) == SUPER_AT[k]
    {
      OffsetsAt(SUPER, SUPER_AT, k);
    }
  }

  const INODE_AT: seq<nat> := [0, 2, 4, 8, 12, 20, 28, 36, 44, 52, 60, 64, 68, 76, 84, 92, 100, 104, 108, 116, 140, 512]

  lemma InodeStarts()
    ensures |INODE_AT| == |INODE| + 1
    ensures forall k :: 0 <= k <= |INODE| ==> At(INODE, k) == INODE_AT[k]
  {
    assert Offsets(INODE, INODE_AT);
    forall k | 0 <= k <= |INODE|
      ensures At(INODE, k) == INODE_AT[k]
    {
      OffsetsAt(INODE, INODE_AT, k);
    }
  }

  const CHECKPOINT_AT: seq<nat> := [0, 4, 8, 12, 16, 20, 24, 32, 40, 48, 56, 64, 72, 80, 88, 96, 104, 112, 120, 128, 136, 144, 152, 160, 168, 4096]

  lemma CheckpointStarts()
    ensures |CHECKPOINT_AT| == |CHECKPOINT| + 1
    ensures forall k :: 0 <= k <= |CHECKPOINT| ==> At(CHECKPOINT, k) == CHECKPOINT_AT[k]
  {
    assert Offsets(CHECKPOINT, CHECKPOINT_AT);
    forall k | 0 <= k <= |CHECKPOINT|
      ensures At(CHECKPOINT, k) == CHECKPOINT_AT[k]
    {
      OffsetsAt(CHECKPOINT, CHECKPOINT_AT, k);
    }
  }

  // -------------------------------------------------------------------------- what is read

  /** Inodes: mode, size, blocks, extent root and checksum. */
  lemma InodePlaces(i: Inode)
    ensures SizeOf(INODE) == INODE_SIZE && At(INODE, 16) == I_CHECKSUM
    ensures At(INODE, 9) == 52 && Mode(i) == Get(i, At(INODE, 0), 2) && Size(i) == Get(i, At(INODE, 4), 8)
            && Blocks(i) == Get(i, At(INODE, 5), 8) && ExtentRoot(i) == Get(i, At(INODE, 9), 8)
  {
    hide Get, At;
    InodeStarts();
  }

  /** Extent nodes: 102 extents behind the head fill the block. */
  lemma NodePlaces(b: Block, e: nat)
    requires e < 102
    ensures SizeOf(NODE_HEAD) + 102 * SizeOf(EXTENT) == 4096 && EXTENTS_MAX == 102 && At(NODE_HEAD, 2) == EN_CHECKSUM
    ensures NodeNext(b) == Get(b, At(NODE_HEAD, 0), 8) && NodeCount(b) == Get(b, At(NODE_HEAD, 1), 4)
    ensures var at := SizeOf(NODE_HEAD) + e * SizeOf(EXTENT);
            && at + 40 <= 4096
            && ExtentLogical(b, e) == Get(b, at + At(EXTENT, 0), 8) && ExtentStart(b, e) == Get(b, at + At(EXTENT, 1), 8)
            && ExtentSums(b, e) == Get(b, at + At(EXTENT, 2), 8) && ExtentLen(b, e) == Get(b, at + At(EXTENT, 3), 8)
  {
    hide Get;
  }

  /** Checksum blocks: 1020 sums behind the head fill the block. */
  lemma SumPlaces(b: Block, k: nat)
    requires k < 1020
    ensures SizeOf(NODE_HEAD) + 1020 * 4 == 4096 && SUMS_PER_BLOCK == 1020 && At(NODE_HEAD, 2) == CB_CHECKSUM
    ensures SumsNext(b) == Get(b, At(NODE_HEAD, 0), 8) && SumsEntries(b) == Get(b, At(NODE_HEAD, 1), 4)
    ensures SumAt(b, k) == Get(b, SizeOf(NODE_HEAD) + 4 * k, 4)
  {
    hide Get;
    assert |NODE_HEAD| == 3;
  }

  lemma EntryPlaces(dir: Block, off: nat)
    requires off + 14 <= 4096
    ensures SizeOf(DIR_ENTRY) == DIR_BASE == 14 && At(DIR_ENTRY, 4) == 13
    ensures EntryIno(dir, off) == Get(dir, off + At(DIR_ENTRY, 0), 8) && EntryRecLen(dir, off) == Get(dir, off + At(DIR_ENTRY, 1), 2)
            && EntryNameLen(dir, off) == Get(dir, off + At(DIR_ENTRY, 2), 2)
  {
    hide Get;
  }

  /** Bitmaps: bit i is bit i mod 8 of byte i / 8 behind the head, and 32640 bits fill the
      block. */
  lemma BitmapPlaces(b: Block, i: nat)
    requires i < 32640
    ensures SizeOf(BITMAP_HEAD) + 32640 / 8 == 4096 && MAX_INODES == 32640 && At(BITMAP_HEAD, 0) == BB_CHECKSUM
    ensures BitmapTotal(b) == Get(b, At(BITMAP_HEAD, 1), 4) && BitmapSetBits(b) == Get(b, At(BITMAP_HEAD, 2), 4)
    ensures var byte: int := b[SizeOf(BITMAP_HEAD) + i / 8]; BitSet(b, i) <==> byte / Pow2(i % 8) % 2 == 1
  {
    hide Get, Pow2;
  }

  lemma JournalPlaces()
    ensures SizeOf(JOURNAL) == JOURNAL_SIZE && At(JOURNAL, 5) == 36 && At(JOURNAL, 6) == IL_CHECKSUM
  {
    assert |JOURNAL| == 8;
  }

  lemma SuperPlaces(s: Super)
    ensures SizeOf(SUPER) == SUPER_SIZE && At(SUPER, 10) == S_CHECKSUM && At(SUPER, 4) == FREE_BLOCKS
    ensures At(SUPER, 3) == 12 && At(SUPER, 22) == 136 && At(SUPER, 23) == 144 && BlocksCount(s) == Get(s, At(SUPER, 3), 8)
            && JournalAddr(s) == Get(s, At(SUPER, 22), 8) && RootInodeAddr(s) == Get(s, At(SUPER, 23), 8)
  {
    hide Get, At;
    SuperStarts();
  }

  /** Labels: eight member entries behind the head. */
  lemma LabelPlaces(l: Label, i: nat)
    requires i < 8
    ensures SizeOf(LABEL_HEAD) + 8 * SizeOf(MEMBER) + 45 * 8 == LABEL_SIZE && At(LABEL_HEAD, 2) == PL_CHECKSUM && At(LABEL_HEAD, 5) == PL_INDEX
    ensures Profile(l) == Get(l, At(LABEL_HEAD, 3), 4) && MemberCount(l) == Get(l, At(LABEL_HEAD, 4), 4)
            && IndexOf(l) == Get(l, At(LABEL_HEAD, 5), 4)
    ensures At(LABEL_HEAD, 12) == 48 && LogicalBlocks(l) == Get(l, At(LABEL_HEAD, 12), 8)
    ensures var at := SizeOf(LABEL_HEAD) + i * SizeOf(MEMBER);
            && at + 48 <= 824
            && MemberTotal(l, i) == Get(l, at + At(MEMBER, 1), 8) && MemberData(l, i) == Get(l, at + At(MEMBER, 2), 8)
            && MemberIndex(l, i) == Get(l, at + At(MEMBER, 5), 4)
  {
    hide Get;
    assert |LABEL_HEAD| == 15 && |MEMBER| == 7;
  }

  // ------------------------------------------------------------------ what is demanded, written

  /** The tables of what load demands name the members they mean. */
  lemma SuperFormPlaces(blocks: nat, members: nat)
    ensures Declared(SuperForm(blocks, members), SUPER, [0, 1, 2, 3, 7, 14, 25, 26, 27, 28, 29])
  {
    hide At;
    SuperStarts();
  }

  lemma CheckpointHeadPlaces(s: Super)
    ensures Declared(CheckpointHead(s), CHECKPOINT, [0, 1, 3, 4, 5, 6, 7, 8, 9, 10, 11])
  {
    hide At, Get, Get32, Get64;
    CheckpointStarts();
  }

  lemma CheckpointTailPlaces(s: Super, blocks: nat)
    ensures Declared(CheckpointTail(s, blocks), CHECKPOINT, [12, 13, 14, 15, 16, 17, 18, 19, 20, 21, 22, 23])
  {
    hide At, Get, Get32, Get64;
    CheckpointStarts();
  }

  /** So do the tables mkfs writes. */
  lemma NewSuperPlaces(mode: Word16, blocks: nat)
    requires DATA_START <= blocks
    ensures Declared(SuperHead(mode, blocks), SUPER, [0, 1, 2, 3, 4, 5, 6, 7, 8, 9])
  {
    hide At, BlocksPerGroup, GroupCount, Features;
    SuperStarts();
  }

  lemma NewSuperTailPlaces()
    ensures Declared(SuperTail(), SUPER, [12, 13, 14, 22, 23, 24, 25, 26, 27, 28, 29])
  {
    hide At;
    SuperStarts();
  }

  lemma NewCheckpointPlaces(s: Super, blocks: nat)
    ensures Declared(RootHead(s), CHECKPOINT, [0, 1, 3, 4, 5, 6, 7, 8, 9, 10, 11])
    ensures Declared(RootTail(s, blocks), CHECKPOINT, [12, 13, 14, 15, 16, 17, 18, 19, 20])
  {
    hide At, Get, Get32, Get64;
    CheckpointStarts();
  }

  lemma NewInodePlaces(o: Options)
    ensures Declared(InodeFields(o), INODE, [0, 1, 2, 3, 4, 5, 6, 7, 8, 9, 10, 11, 14])
  {
    hide At;
    InodeStarts();
  }

  lemma NewJournalPlaces()
    ensures Declared(JournalFields(), JOURNAL, [0, 1, 2, 3])
  {
  }
}
