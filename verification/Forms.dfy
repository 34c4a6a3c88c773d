/** What load demands of superblock, checkpoint and bitmap, as tables of fields: a
    structure passes exactly when filling in the table and sealing it changes nothing. */
module Forms {
  import opened Bytes
  import opened Crc
  import opened Layout
  import opened Records
  import opened V = Validator
  import opened Loader
  import opened BitmapLaws

  /** The fields of fs, in order, fit values and stay clear of the checksum at `at`. */
  predicate IsForm(fs: seq<Field>, size: nat, at: nat) {
    && Fits(fs, size) && InOrder(fs) && at + 4 <= size
    && forall k :: 0 <= k < |fs| ==> fs[k].v < Pow256(fs[k].n) && (fs[k].off + fs[k].n <= at || at + 4 <= fs[k].off)
  }

  /** Every field of the table has its value. */
  ghost predicate FieldsHold(b: seq<Byte>, fs: seq<Field>)
    requires Fits(fs, |b|)
  {
    forall k :: 0 <= k < |fs| ==> Get(b, fs[k].off, fs[k].n) == fs[k].v
  }

  lemma FieldsOfBoth(b: seq<Byte>, fs: seq<Field>, gs: seq<Field>)
    requires Fits(fs, |b|) && Fits(gs, |b|)
    ensures Fits(fs + gs, |b|) && (FieldsHold(b, fs + gs) <==> FieldsHold(b, fs) && FieldsHold(b, gs))
  {
    hide Get;
    var both := fs + gs;
    assert forall k :: 0 <= k < |fs| ==> both[k] == fs[k];
    assert forall k :: 0 <= k < |gs| ==> both[|fs| + k] == gs[k];
  }

  /** b with the form filled in and sealed. */
  function Filled(b: seq<Byte>, fs: seq<Field>, at: nat): seq<Byte>
    requires IsForm(fs, |b|, at)
  {
    Seal(Write(b, fs), at)
  }

  /** Filling in changes nothing exactly when every field has its value and the seal
      matches. */
  lemma FilledExact(b: seq<Byte>, fs: seq<Field>, at: nat)
    requires IsForm(fs, |b|, at)
    ensures Filled(b, fs, at) == b <==> Sealed(b, at) && FieldsHold(b, fs)
  {
    hide Get, Put, Write, SelfChecksum, Sealed, Seal;
    var w := Write(b, fs);
    SealSeals(w, at);
    if Filled(b, fs, at) == b {
      forall k | 0 <= k < |fs|
        ensures Get(b, fs[k].off, fs[k].n) == fs[k].v
      {
        WriteGets(b, fs, k);
        GetFrame(b, w, fs[k].off, fs[k].n);
      }
    }
    if Sealed(b, at) && FieldsHold(b, fs) {
      WriteSame(b, fs);
      SealSame(b, at);
    }
  }

  // ---------------------------------------------------------------------- superblock

  /** Magic, version, block size, blocks, devices, checkpoint block, inodes, inode bitmap,
      extent tree, free list, snapshots. */
  function SuperForm(blocks: nat, members: nat): seq<Field> {
    [Field(0, 4, 0x41455448), Field(4, 4, 5), Field(8, 4, 4096), Field(12, 8, blocks), Field(36, 4, members), Field(72, 8, 7),
     Field(156, 4, 32640), Field(160, 8, 5), Field(168, 8, 0), Field(176, 8, 6), Field(184, 8, 0)]
  }

  lemma SuperFormOk(blocks: nat, members: nat)
    requires blocks < U64 && members < U32
    ensures IsForm(SuperForm(blocks, members), 256, 44)
  {
    Pow256Values();
  }

  lemma SuperExact(s: Super, blocks: nat, members: nat)
    requires blocks < U64 && members < U32
    ensures CheckSuper(s, blocks, members).Zero? <==> blocks >= 8 && SuperInForm(s, blocks, members)
  {
    hide Get, Filled, Sealed, IsForm;
    SuperFormOk(blocks, members);
    FilledExact(s, SuperForm(blocks, members), 44);
    var fs := SuperForm(blocks, members);
    SuperFieldsHold(s, fs, blocks, members);
  }

  /** A wrong magic, version or block size is -EINVAL, then a wrong checksum -EILSEQ, and
      every other fault -EINVAL. */
  lemma SuperErrors(s: Super, blocks: nat, members: nat)
    requires CheckSuper(s, blocks, members).Neg?
    ensures CheckSuper(s, blocks, members).error ==
            if Get32(s, 0) == 0x41455448 && Get32(s, 4) == 5 && Get32(s, 8) == 4096 && !Sealed(s, 44) then EILSEQ else EINVAL
  {
    hide Get, Sealed;
  }

  lemma SuperFieldsHold(s: Super, fs: seq<Field>, blocks: nat, members: nat)
    requires fs == SuperForm(blocks, members) && IsForm(fs, 256, 44)
    ensures FieldsHold(s, fs) <==>
            && Get32(s, 0) == 0x41455448 && Get32(s, 4) == 5 && Get32(s, 8) == 4096 && Get64(s, 12) == blocks && Get32(s, 36) == members
            && Get64(s, 72) == 7 && Get32(s, 156) == 32640 && Get64(s, 160) == 5 && Get64(s, 168) == 0 && Get64(s, 176) == 6 && Get64(s, 184) == 0
  {
    hide Get;
    if FieldsHold(s, fs) {
      assert fs[0].n == 4 && fs[1].n == 4 && fs[2].n == 4 && fs[3].n == 8 && fs[4].n == 4 && fs[5].n == 8;
      assert fs[6].n == 4 && fs[7].n == 8 && fs[8].n == 8 && fs[9].n == 8 && fs[10].n == 8;
    }
  }

  /** The superblock is in its form. */
  ghost predicate SuperInForm(s: Super, blocks: nat, members: nat)
    requires blocks < U64 && members < U32
  {
    SuperFormOk(blocks, members);
    Filled(s, SuperForm(blocks, members), 44) == s
  }

  // ---------------------------------------------------------------------- checkpoint

  /** Magic, version, generation, groups, regions, then the blocks of superblock, inode
      table, root directory, journal, bitmap and free list, the trees, and the two
      regions of the image. */
  function CheckpointForm(s: Super, blocks: nat): seq<Field> {
    CheckpointHead(s) + CheckpointTail(s, blocks)
  }

  function CheckpointHead(s: Super): seq<Field> {
    [Field(0, 4, 0x43505254), Field(4, 4, 1), Field(12, 4, Get32(s, 152)), Field(16, 4, Get32(s, 32)), Field(20, 4, 2), Field(24, 8, 1),
     Field(32, 8, Get64(s, 144)), Field(40, 8, 3), Field(48, 8, Get64(s, 136)), Field(56, 8, Get64(s, 160)), Field(64, 8, Get64(s, 176))]
  }

  function CheckpointTail(s: Super, blocks: nat): seq<Field> {
    [Field(72, 8, Get64(s, 160)), Field(80, 8, Get64(s, 168)), Field(88, 8, Get64(s, 184)), Field(96, 8, Get64(s, 192)),
     Field(104, 8, Get64(s, 200)), Field(112, 8, 1), Field(120, 8, 7), Field(128, 8, 8), Field(136, 8, blocks),
     Field(144, 8, 0), Field(152, 8, 0), Field(160, 8, 0)]
  }

  lemma CheckpointFormOk(s: Super, blocks: nat)
    requires blocks < U64
    ensures IsForm(CheckpointForm(s, blocks), 4096, 8)
  {
    hide Get;
    Pow256Values();
  }

  lemma CheckpointExact(c: Block, s: Super, blocks: nat)
    requires blocks < U64
    ensures CheckCheckpoint(c, s, blocks).Zero? <==> CheckpointInForm(c, s, blocks)
  {
    hide Get, Filled, Sealed, IsForm, CheckpointForm;
    CheckpointFormOk(s, blocks);
    FilledExact(c, CheckpointForm(s, blocks), 8);
    CheckpointFieldsHold(c, s, blocks);
  }

  lemma CheckpointErrors(c: Block, s: Super, blocks: nat)
    requires CheckCheckpoint(c, s, blocks).Neg?
    ensures CheckCheckpoint(c, s, blocks).error ==
            if Get32(c, 0) == 0x43505254 && Get32(c, 4) == 1 && !Sealed(c, 8) then EILSEQ else EINVAL
  {
    hide Get, Sealed;
  }

  lemma CheckpointHeadHolds(c: Block, s: Super)
    ensures Fits(CheckpointHead(s), 4096)
    ensures FieldsHold(c, CheckpointHead(s)) <==>
            && Get32(c, 0) == 0x43505254 && Get32(c, 4) == 1 && Get32(c, 12) == Get32(s, 152) && Get32(c, 16) == Get32(s, 32)
            && Get32(c, 20) == 2 && Get64(c, 24) == 1 && Get64(c, 32) == Get64(s, 144) && Get64(c, 40) == 3
            && Get64(c, 48) == Get64(s, 136) && Get64(c, 56) == Get64(s, 160) && Get64(c, 64) == Get64(s, 176)
  {
    hide Get;
    var fs := CheckpointHead(s);
    if FieldsHold(c, fs) {
      assert fs[0].n == 4 && fs[1].n == 4 && fs[2].n == 4 && fs[3].n == 4 && fs[4].n == 4 && fs[5].n == 8;
      assert fs[6].n == 8 && fs[7].n == 8 && fs[8].n == 8 && fs[9].n == 8 && fs[10].n == 8;
    }
  }

  lemma CheckpointTailHolds(c: Block, s: Super, blocks: nat)
    ensures Fits(CheckpointTail(s, blocks), 4096)
    ensures FieldsHold(c, CheckpointTail(s, blocks)) <==>
            && Get64(c, 72) == Get64(s, 160) && Get64(c, 80) == Get64(s, 168) && Get64(c, 88) == Get64(s, 184)
            && Get64(c, 96) == Get64(s, 192) && Get64(c, 104) == Get64(s, 200) && Get64(c, 112) == 1 && Get64(c, 120) == 7
            && Get64(c, 128) == 8 && Get64(c, 136) == blocks && Get64(c, 144) == 0 && Get64(c, 152) == 0 && Get64(c, 160) == 0
  {
    hide Get;
    var fs := CheckpointTail(s, blocks);
    if FieldsHold(c, fs) {
      assert fs[0].n == 8 && fs[1].n == 8 && fs[2].n == 8 && fs[3].n == 8 && fs[4].n == 8 && fs[5].n == 8;
      assert fs[6].n == 8 && fs[7].n == 8 && fs[8].n == 8 && fs[9].n == 8 && fs[10].n == 8 && fs[11].n == 8;
    }
  }

  lemma CheckpointFieldsHold(c: Block, s: Super, blocks: nat)
    ensures Fits(CheckpointForm(s, blocks), 4096)
    ensures CheckCheckpoint(c, s, blocks).Zero? <==> Sealed(c, 8) && FieldsHold(c, CheckpointForm(s, blocks))
  {
    hide Get, Sealed, CheckpointHead, CheckpointTail, FieldsHold, Fits;
    CheckpointHeadHolds(c, s);
    CheckpointTailHolds(c, s, blocks);
    FieldsOfBoth(c, CheckpointHead(s), CheckpointTail(s, blocks));
  }

  /** The checkpoint is in the form its superblock gives it. */
  ghost predicate CheckpointInForm(c: Block, s: Super, blocks: nat)
    requires blocks < U64
  {
    CheckpointFormOk(s, blocks);
    Filled(c, CheckpointForm(s, blocks), 8) == c
  }

  // ------------------------------------------------------------------------ the load

  /** The bitmap is sealed, has room for all inodes and counts those it marks. */
  ghost predicate BitmapInForm(b: Block) {
    Sealed(b, 0) && Get32(b, 4) == 32640 && Get32(b, 8) == |UsedInodes(b, 32640)|
  }

  lemma BitmapExact(b: Block)
    ensures CheckBitmap(b).Zero? <==> BitmapInForm(b)
  {
    hide Get, Sealed, CountSet, UsedInodes;
    CountSetExact(b, 4080);
  }

  /** The image is what the device shows: superblock, checkpoint, bitmap, free list and
      root directory at blocks 1, 7, 5, 6 and 3, journal and inode table where the
      superblock says, each in its form. */
  ghost predicate Shown(rd: Reader, blocks: nat, members: nat, img: Image)
    requires blocks < U64 && members < U32 && |img.super| == 256 && |img.journal| == 48
  {
    && blocks >= 8 && img.blocks == blocks
    && rd(1).Ok? && img.super == rd(1).value[..256] && SuperInForm(img.super, blocks, members)
    && rd(7) == Ok(img.checkpoint) && CheckpointInForm(img.checkpoint, img.super, blocks)
    && JournalShown(rd, Get64(img.super, 136), img.journal)
    && rd(5) == Ok(img.bitmap) && BitmapInForm(img.bitmap)
    && rd(6) == Ok(img.free) && Sealed(img.free, 12) && Get32(img.free, 8) <= 102
    && rd(Get64(img.super, 144)) == Ok(img.inodes) && rd(3) == Ok(img.rootDir)
  }

  /** The journal is the first 48 bytes of its block, sealed up to its checksum. */
  ghost predicate JournalShown(rd: Reader, at: nat, j: seq<Byte>)
    requires |j| == 48
  {
    rd(at).Ok? && j == rd(at).value[..48] && Get32(j, 40) == DataChecksum(j[..40])
  }

  lemma LoadExact(rd: Reader, blocks: nat, members: nat, img: Image)
    requires blocks < U64 && members < U32 && |img.super| == 256 && |img.journal| == 48
    ensures Load(rd, blocks, members) == Ok(img) <==> Shown(rd, blocks, members, img)
  {
    hide Load, CheckSuper, CheckCheckpoint, CheckBitmap, Get, Sealed, SuperInForm, CheckpointInForm, BitmapInForm, DataChecksum;
    SuperExact(img.super, blocks, members);
    CheckpointExact(img.checkpoint, img.super, blocks);
    BitmapExact(img.bitmap);
    if Load(rd, blocks, members) == Ok(img) {
      LoadParts(rd, blocks, members);
      SuperBlocks(img.super, blocks, members);
    }
    if Shown(rd, blocks, members, img) {
      SuperBlocks(img.super, blocks, members);
      LoadAccepts(rd, blocks, members, img);
    }
  }

  lemma SuperBlocks(s: Super, blocks: nat, members: nat)
    ensures CheckSuper(s, blocks, members).Zero? ==> BlocksCount(s) == blocks >= 8
  {
    hide Get, Sealed;
  }
}
