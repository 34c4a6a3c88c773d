/** What the checks that mkfs makes of its own work demand, said without them. */
module MkfsChecks {
  import opened Bytes
  import opened Crc
  import opened Layout
  import opened Records
  import opened V = Validator
  import opened Acceptance
  import opened SpaceBound
  import opened Loader
  import opened Meaning
  import opened BitmapLaws
  import opened Forms
  import opened Mkfs
  import opened MkfsRun

  // ------------------------------------------------------------------ superblock, checkpoint

  /** Magic, version, block size, blocks, free blocks, checkpoint block, inodes, inode
      bitmap, extent tree, free list, snapshots. */
  function NewSuperForm(blocks: nat): seq<Field>
    requires 8 <= blocks
  {
    [Field(0, 4, 0x41455448), Field(4, 4, 5), Field(8, 4, 4096), Field(12, 8, blocks), Field(20, 8, blocks - 8), Field(72, 8, 7),
     Field(156, 4, 32640), Field(160, 8, 5), Field(168, 8, 0), Field(176, 8, 6), Field(184, 8, 0)]
  }

  lemma NewSuperExact(s: Super, blocks: nat)
    requires 8 <= blocks < U64
    ensures IsForm(NewSuperForm(blocks), 256, 44)
    ensures CheckNewSuper(s, blocks).Zero? <==> Filled(s, NewSuperForm(blocks), 44) == s
    ensures CheckNewSuper(s, blocks).Neg? ==> CheckNewSuper(s, blocks) == Neg(if FieldsHold(s, NewSuperForm(blocks)) then EBADE else EINVAL)
  {
    hide Get, Sealed, Filled;
    Pow256Values();
    var fs := NewSuperForm(blocks);
    FilledExact(s, fs, 44);
    if FieldsHold(s, fs) {
      assert fs[0].n == 4 && fs[1].n == 4 && fs[2].n == 4 && fs[3].n == 8 && fs[4].n == 8 && fs[5].n == 8;
      assert fs[6].n == 4 && fs[7].n == 8 && fs[8].n == 8 && fs[9].n == 8 && fs[10].n == 8;
    }
  }

  /** Magic, version, generation, groups, regions, the bootstrap blocks, the regions of the
      image, and nothing else. */
  function NewCheckpointForm(blocks: nat): seq<Field> {
    [Field(0, 4, 0x43505254), Field(4, 4, 1), Field(12, 4, 1), Field(16, 4, GroupCount(blocks)), Field(20, 4, 2), Field(24, 8, 1),
     Field(32, 8, 2), Field(40, 8, 3), Field(48, 8, 4), Field(56, 8, 5), Field(64, 8, 6), Field(72, 8, 5), Field(80, 8, 0), Field(88, 8, 0),
     Field(112, 8, 1), Field(120, 8, 7), Field(128, 8, 8), Field(136, 8, blocks), Field(144, 8, 0), Field(152, 8, 0), Field(160, 8, 0)]
  }

  lemma NewCheckpointFormOk(blocks: nat)
    requires blocks < U64
    ensures IsForm(NewCheckpointForm(blocks), 4096, 8)
  {
    Pow256Values();
  }

  lemma NewCheckpointExact(c: Block, blocks: nat)
    requires blocks < U64
    ensures IsForm(NewCheckpointForm(blocks), 4096, 8)
    ensures CheckNewCheckpoint(c, blocks).Zero? <==> Filled(c, NewCheckpointForm(blocks), 8) == c
  {
    hide Get, Sealed, Filled, IsForm, GroupCount;
    NewCheckpointFormOk(blocks);
    FilledExact(c, NewCheckpointForm(blocks), 8);
    NewCheckpointFields(c, blocks, NewCheckpointForm(blocks));
  }

  lemma NewCheckpointFields(c: Block, blocks: nat, fs: seq<Field>)
    requires fs == NewCheckpointForm(blocks) && IsForm(fs, 4096, 8)
    ensures CheckNewCheckpoint(c, blocks).Zero? <==> Sealed(c, 8) && FieldsHold(c, fs)
    ensures CheckNewCheckpoint(c, blocks).Neg? ==> CheckNewCheckpoint(c, blocks) == Neg(if FieldsHold(c, fs) then EBADE else EINVAL)
  {
    hide Get, Sealed, GroupCount;
    if FieldsHold(c, fs) {
      assert fs[0].n == 4 && fs[1].n == 4 && fs[2].n == 4 && fs[3].n == 4 && fs[4].n == 4 && fs[5].n == 8 && fs[6].n == 8 && fs[7].n == 8;
      assert fs[8].n == 8 && fs[9].n == 8 && fs[10].n == 8 && fs[11].n == 8 && fs[12].n == 8 && fs[13].n == 8 && fs[14].n == 8;
      assert fs[15].n == 8 && fs[16].n == 8 && fs[17].n == 8 && fs[18].n == 8 && fs[19].n == 8 && fs[20].n == 8;
    }
  }

  // ----------------------------------------------------------------------------- the others

  /** The root inode: sealed, a directory that all may search, in block 3. */
  lemma NewInodeExact(i: Inode)
    ensures CheckNewInode(i) == if !Sealed(i, 100) then Neg(EBADE) else if Get16(i, 0) == 0x41ED && Get64(i, 52) == 3 then Zero else Neg(EINVAL)
  {
    hide Get, Sealed;
  }

  /** The journal: sealed up to its checksum, and nothing outstanding. */
  lemma NewJournalExact(j: Journal)
    ensures CheckNewJournal(j) ==
            if Get32(j, 40) != DataChecksum(j[..40]) then Neg(EBADE) else if Get32(j, 36) == 0 then Zero else Neg(EUCLEAN)
  {
    hide Get, DataChecksum;
  }

  /** The bitmap: sealed, for all inodes, with one of them marked and counted. */
  lemma NewBitmapExact(b: Block)
    ensures CheckNewBitmap(b).Zero? <==> Sealed(b, 0) && Get32(b, 4) == 32640 && Get32(b, 8) == 1 == |UsedInodes(b, 32640)|
  {
    hide Get, Sealed, CountSet, UsedInodes;
    CountSetExact(b, 4080);
  }

  /** The record at off names the root inode with len dots, under its checksum. */
  predicate DotRecord(d: Block, off: nat, len: nat) {
    && 1 <= len <= 2 && off + 14 + len <= 4096
    && Get64(d, off) == 16 && Get16(d, off + 10) == len && d[off + 14] == 46 && (len == 2 ==> d[off + 15] == 46)
    && d[off + 13] == EntryChecksum(d, off, len)
  }

  /** The root directory: a record for one dot, and behind it one for two. */
  lemma NewDirExact(d: Block)
    ensures CheckNewDir(d).Zero? <==> DotRecord(d, 0, 1) && DotRecord(d, Get16(d, 8), 2)
  {
    hide Get, EntryChecksum;
  }

  lemma {:induction false} NewFreeRunExact(node: Block, blocks: nat, n: nat)
    requires n <= EXTENTS_MAX
    ensures NewFreeRun(node, blocks, n).Ok? <==> forall i :: 0 <= i < n ==> FreeGood(node, blocks, i) && ExtentStart(node, i) >= 8
    ensures NewFreeRun(node, blocks, n).Ok? ==> NewFreeRun(node, blocks, n).value == FreeRun(LenSum(node, n) % U64, FreeFrom(node, n))
    decreases n
  {
    hide ExtentStart, ExtentLen;
    if n != 0 {
      NewFreeRunExact(node, blocks, n - 1);
      AddMod(LenSum(node, n - 1), ExtentLen(node, n - 1));
      assert NewFreeRun(node, blocks, n).Ok? <==>
             NewFreeRun(node, blocks, n - 1).Ok? && FreeGood(node, blocks, n - 1) && ExtentStart(node, n - 1) >= 8;
    }
  }

  /** The free list: sealed, one node of one to 102 good extents of the data area, together
      as long as the data area. */
  lemma NewFreeExact(node: Block, blocks: nat)
    requires 8 <= blocks
    ensures CheckNewFree(node, blocks).Zero? <==>
            && Sealed(node, 12) && Get64(node, 0) == 0 && 1 <= Get32(node, 8) <= 102
            && (forall i :: 0 <= i < Get32(node, 8) ==> FreeGood(node, blocks, i) && ExtentStart(node, i) >= 8)
            && LenSum(node, Get32(node, 8)) % U64 == blocks - 8
  {
    hide Get, Sealed, ExtentStart, ExtentLen, LenSum, FreeGood;
    if Get32(node, 8) <= 102 {
      NewFreeRunExact(node, blocks, Get32(node, 8));
    }
  }
}
