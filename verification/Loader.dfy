/** `aetherfs_image_load`: superblock, checkpoint root and the bootstrap
    structures they point to. */
module Loader {
  import opened Bytes
  import opened Crc
  import opened Layout
  import opened Validator
  import opened Acceptance

  const MAGIC: nat := 0x41455448
  const VERSION: nat := 5
  const CHECKPOINT_MAGIC: nat := 0x43505254
  const CHECKPOINT_VERSION: nat := 1

  const S_CHECKSUM: nat := 44
  const CR_CHECKSUM: nat := 8
  const BB_CHECKSUM: nat := 0
  const IL_CHECKSUM: nat := 40

  type Super = s: seq<Byte> | |s| == 256 witness seq(256, _ => 0)
  type Journal = s: seq<Byte> | |s| == 48 witness seq(48, _ => 0)

  function BlocksCount(s: Super): nat { Get64(s, 12) }

  function JournalAddr(s: Super): nat { Get64(s, 136) }

  function RootInodeAddr(s: Super): nat { Get64(s, 144) }

  /** `aetherfs_image_validate_super` */
  function CheckSuper(s: Super, logicalBlocks: nat, memberCount: nat): Rc {
    if Get32(s, 0) != MAGIC || Get32(s, 4) != VERSION || Get32(s, 8) != 4096 then Neg(EINVAL)
    else if !Sealed(s, S_CHECKSUM) then Neg(EILSEQ)
    else if BlocksCount(s) < DATA_START || BlocksCount(s) != logicalBlocks then Neg(EINVAL)
    else if Get32(s, 36) != memberCount then Neg(EINVAL)
    else if Get64(s, 72) != CHECKPOINT_BLOCK || Get32(s, 156) != MAX_INODES then Neg(EINVAL)
    else if Get64(s, 160) != INODE_BITMAP_BLOCK || Get64(s, 168) != 0 then Neg(EINVAL)
    else if Get64(s, 176) != FREE_EXTENT_BLOCK || Get64(s, 184) != 0 then Neg(EINVAL)
    else Zero
  }

  /** `aetherfs_image_validate_checkpoint_root` */
  function CheckCheckpoint(c: Block, s: Super, blocks: nat): Rc {
    if Get32(c, 0) != CHECKPOINT_MAGIC || Get32(c, 4) != CHECKPOINT_VERSION then Neg(EINVAL)
    else if !Sealed(c, CR_CHECKSUM) then Neg(EILSEQ)
    else if Get32(c, 12) != Get32(s, 152) || Get32(c, 16) != Get32(s, 32) || Get32(c, 20) != 2 then Neg(EINVAL)
    else if Get64(c, 24) != SUPER_BLOCK || Get64(c, 32) != RootInodeAddr(s) || Get64(c, 40) != ROOT_DIR_BLOCK then Neg(EINVAL)
    else if Get64(c, 48) != JournalAddr(s) || Get64(c, 56) != Get64(s, 160) || Get64(c, 64) != Get64(s, 176) then Neg(EINVAL)
    else if Get64(c, 72) != Get64(s, 160) || Get64(c, 80) != Get64(s, 168) || Get64(c, 88) != Get64(s, 184) then Neg(EINVAL)
    else if Get64(c, 96) != Get64(s, 192) || Get64(c, 104) != Get64(s, 200) then Neg(EINVAL)
    else if Get64(c, 112) != SUPER_BLOCK || Get64(c, 120) != CHECKPOINT_BLOCK then Neg(EINVAL)
    else if Get64(c, 128) != DATA_START || Get64(c, 136) != blocks then Neg(EINVAL)
    else if Get64(c, 144) != 0 || Get64(c, 152) != 0 || Get64(c, 160) != 0 then Neg(EINVAL)
    else Zero
  }

  /** `aetherfs_image_validate_bitmap` */
  function CheckBitmap(b: Block): Rc {
    if BitmapTotal(b) != MAX_INODES then Neg(EINVAL)
    else if !Sealed(b, BB_CHECKSUM) || BitmapSetBits(b) != CountSet(b, 4080) then Neg(EILSEQ)
    else Zero
  }

  predicate JournalSealed(j: Journal) {
    Get32(j, IL_CHECKSUM) == DataChecksum(j[..IL_CHECKSUM])
  }

  function SuperOf(b: Block): Super { b[..256] }

  function JournalOf(b: Block): Journal { b[..48] }

  /** A structure at the start of a zeroed block. */
  function Padded(s: seq<Byte>): Block
    requires |s| <= 4096
  {
    s + seq(4096 - |s|, _ => 0)
  }

  lemma PaddedPrefixes(s: Super, j: Journal)
    ensures SuperOf(Padded(s)) == s && JournalOf(Padded(j)) == j
  {
  }

  /** The superblock that load accepts. */
  function LoadSuper(rd: Reader, logicalBlocks: nat, memberCount: nat): Result<Super> {
    var b := rd(SUPER_BLOCK);
    if b.Err? then Err(b.error) else
    var rc := CheckSuper(SuperOf(b.value), logicalBlocks, memberCount);
    if rc.Neg? then Err(rc.error) else Ok(SuperOf(b.value))
  }

  function LoadCheckpoint(rd: Reader, s: Super): Result<Block> {
    var b := rd(Get64(s, 72));
    if b.Err? then b else
    var rc := CheckCheckpoint(b.value, s, BlocksCount(s));
    if rc.Neg? then Err(rc.error) else b
  }

  function LoadJournal(rd: Reader, at: nat): Result<Journal> {
    var b := rd(at);
    if b.Err? then Err(b.error)
    else if !JournalSealed(JournalOf(b.value)) then Err(EILSEQ)
    else Ok(JournalOf(b.value))
  }

  function LoadBitmap(rd: Reader, at: nat): Result<Block> {
    var b := rd(at);
    if b.Err? then b else
    var rc := CheckBitmap(b.value);
    if rc.Neg? then Err(rc.error) else b
  }

  function Load(rd: Reader, logicalBlocks: nat, memberCount: nat): Result<Image> {
    var s := LoadSuper(rd, logicalBlocks, memberCount);
    if s.Err? then Err(s.error) else
    var c := LoadCheckpoint(rd, s.value);
    if c.Err? then Err(c.error) else
    var j := LoadJournal(rd, Get64(c.value, 48));
    if j.Err? then Err(j.error) else
    var m := LoadBitmap(rd, Get64(c.value, 56));
    if m.Err? then Err(m.error) else
    var f := ReadExtentNode(rd, Get64(c.value, 64));
    if f.Err? then Err(f.error) else
    var t := rd(Get64(c.value, 32));
    if t.Err? then Err(t.error) else
    var d := rd(Get64(c.value, 40));
    if d.Err? then Err(d.error) else
    Ok(Image(BlocksCount(s.value), s.value, c.value, j.value, m.value, f.value, t.value, d.value))
  }

  /** What an accepted load has read, block by block. */
  lemma LoadParts(rd: Reader, logicalBlocks: nat, memberCount: nat)
    requires Load(rd, logicalBlocks, memberCount).Ok?
    ensures var img := Load(rd, logicalBlocks, memberCount).value;
            && Loaded(img) && img.blocks == BlocksCount(img.super) == logicalBlocks
            && CheckSuper(img.super, logicalBlocks, memberCount).Zero?
            && CheckCheckpoint(img.checkpoint, img.super, img.blocks).Zero?
            && JournalSealed(img.journal) && CheckBitmap(img.bitmap).Zero?
            && rd(SUPER_BLOCK).Ok? && img.super == SuperOf(rd(SUPER_BLOCK).value)
            && rd(CHECKPOINT_BLOCK) == Ok(img.checkpoint)
            && rd(JournalAddr(img.super)).Ok? && img.journal == JournalOf(rd(JournalAddr(img.super)).value)
            && rd(INODE_BITMAP_BLOCK) == Ok(img.bitmap)
            && rd(FREE_EXTENT_BLOCK) == Ok(img.free) && Sealed(img.free, EN_CHECKSUM)
            && rd(RootInodeAddr(img.super)) == Ok(img.inodes)
            && rd(ROOT_DIR_BLOCK) == Ok(img.rootDir)
  {
    hide Sealed, JournalSealed, CheckBitmap, SuperOf, JournalOf, Get64, Get32;
    LoadBounds(rd, logicalBlocks, memberCount);
  }

  lemma LoadBounds(rd: Reader, logicalBlocks: nat, memberCount: nat)
    ensures LoadSuper(rd, logicalBlocks, memberCount).Ok? ==> BlocksCount(LoadSuper(rd, logicalBlocks, memberCount).value) < U64
  {
    hide CheckSuper;
  }

  /** Conversely, blocks that pass their checks load. */
  lemma LoadAccepts(rd: Reader, logicalBlocks: nat, memberCount: nat, img: Image)
    requires |img.super| == SUPER_SIZE && |img.journal| == JOURNAL_SIZE
    requires img.blocks == BlocksCount(img.super) && CheckSuper(img.super, logicalBlocks, memberCount).Zero?
    requires CheckCheckpoint(img.checkpoint, img.super, img.blocks).Zero?
    requires JournalSealed(img.journal) && CheckBitmap(img.bitmap).Zero?
    requires rd(SUPER_BLOCK).Ok? && img.super == SuperOf(rd(SUPER_BLOCK).value)
    requires rd(CHECKPOINT_BLOCK) == Ok(img.checkpoint)
    requires rd(JournalAddr(img.super)).Ok? && img.journal == JournalOf(rd(JournalAddr(img.super)).value)
    requires rd(INODE_BITMAP_BLOCK) == Ok(img.bitmap)
    requires rd(FREE_EXTENT_BLOCK) == Ok(img.free) && Sealed(img.free, EN_CHECKSUM) && NodeCount(img.free) <= EXTENTS_MAX
    requires rd(RootInodeAddr(img.super)) == Ok(img.inodes)
    requires rd(ROOT_DIR_BLOCK) == Ok(img.rootDir)
    ensures Load(rd, logicalBlocks, memberCount) == Ok(img)
  {
    hide Sealed, JournalSealed, CheckBitmap, SuperOf, JournalOf, Get64, Get32;
  }

  /** Load reads only the bootstrap blocks and the two blocks the superblock names. */
  lemma LoadFrame(rd: Reader, rd': Reader, logicalBlocks: nat, memberCount: nat)
    requires Load(rd, logicalBlocks, memberCount).Ok?
    requires forall b: nat :: b < DATA_START ==> rd(b) == rd'(b)
    requires var s := Load(rd, logicalBlocks, memberCount).value.super;
             |s| == SUPER_SIZE ==> rd(JournalAddr(s)) == rd'(JournalAddr(s)) && rd(RootInodeAddr(s)) == rd'(RootInodeAddr(s))
    ensures Load(rd', logicalBlocks, memberCount) == Load(rd, logicalBlocks, memberCount)
  {
    hide Load, Sealed, JournalSealed, CheckBitmap, SuperOf, JournalOf, Get64, Get32, CheckSuper, CheckCheckpoint;
    LoadParts(rd, logicalBlocks, memberCount);
    LoadAccepts(rd', logicalBlocks, memberCount, Load(rd, logicalBlocks, memberCount).value);
  }
}
