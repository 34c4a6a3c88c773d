/** Damage that several blocks may show: whatever else the damaged bytes are part of,
    an image with a burst of up to four bytes in file data does not pass. */
module BurstLaws {
  import opened Bytes
  import opened Crc
  import opened Layout
  import opened Intervals
  import opened V = Validator
  import opened ValidatorLaws
  import opened Acceptance
  import opened Loader
  import opened SpaceBound
  import opened Compaction
  import opened DirectoryLaws
  import opened Meaning
  import opened Ownership

  // ------------------------------------------------------------------- sealed structures

  /** The part of the window that falls into a slice. */
  lemma SliceDiffers(a: Block, b: Block, at: nat, w: nat, lo: nat, n: nat) returns (at': nat, w': nat)
    requires DifferWithin(a, b, at, w) && lo + n <= 4096
    ensures w' <= w && DifferWithin(a[lo..lo + n], b[lo..lo + n], at', w')
  {
    var start, end := if at < lo then lo else at, if at + w < lo + n then at + w else lo + n;
    if start < end {
      at', w' := start - lo, end - start;
    } else {
      at', w' := 0, 0;
    }
  }

  lemma {:induction false} ZeroedByte(a: seq<Byte>, off: nat, n: nat, i: nat)
    requires off <= i < off + n <= |a|
    ensures Put(a, off, n, 0)[i] == 0
    decreases n
  {
    if i > off {
      ZeroedByte(a, off + 1, n - 1, i);
    }
  }

  lemma ZeroedDiffer(a: seq<Byte>, b: seq<Byte>, f: nat, at: nat, w: nat)
    requires f + 4 <= |a| && DifferWithin(a, b, at, w) && (at + w <= f || f + 4 <= at)
    ensures DifferWithin(Put(a, f, 4, 0), Put(b, f, 4, 0), at, w)
  {
    hide Put;
    var za, zb := Put(a, f, 4, 0), Put(b, f, 4, 0);
    forall i | 0 <= i < |a| && !(at <= i < at + w)
      ensures za[i] == zb[i]
    {
      if f <= i < f + 4 {
        ZeroedByte(a, f, 4, i);
        ZeroedByte(b, f, 4, i);
      }
    }
  }

  /** Two sealed structures that differ within four bytes differ only next to the
      checksum: damage beside it is found by it. */
  lemma SealedBurst(a: seq<Byte>, b: seq<Byte>, f: nat, at: nat, w: nat)
    requires f + 4 <= |a| == |b| && Sealed(a, f) && Sealed(b, f) && DifferWithin(a, b, at, w) && w <= 4
    ensures forall k :: 0 <= k < |a| && (k + 3 < f || f + 7 <= k) ==> a[k] == b[k]
  {
    hide DataChecksum, Put, Get;
    if at + w <= f || f + 4 <= at {
      var za, zb := Put(a, f, 4, 0), Put(b, f, 4, 0);
      ZeroedDiffer(a, b, f, at, w);
      GetFrame(a, b, f, 4);
      if za != zb {
        BurstDetected(za, zb, at, w);
      }
      assert forall k :: 0 <= k < |a| && (k + 3 < f || f + 7 <= k) ==> za[k] == a[k] && zb[k] == b[k];
    }
  }

  // ---------------------------------------------------------------------- the two readers

  /** Wherever both can be read, rd' reads what rd does, or `now` where rd reads `was`. */
  ghost predicate Alike(rd: Reader, rd': Reader, was: Block, now: Block) {
    forall b: nat :: rd(b).Ok? && rd'(b).Ok? ==> rd'(b) == rd(b) || (rd(b).value == was && rd'(b).value == now)
  }

  lemma AlikeAt(rd: Reader, rd': Reader, was: Block, now: Block, at: nat, w: nat, b: nat)
    requires Alike(rd, rd', was, now) && DifferWithin(was, now, at, w) && rd(b).Ok? && rd'(b).Ok?
    ensures DifferWithin(rd(b).value, rd'(b).value, at, w)
  {
  }

  /** Both superblocks name the same inode table. */
  lemma SameTableAddr(a: Block, b: Block, at: nat, w: nat)
    requires DifferWithin(a, b, at, w) && w <= 4 && Sealed(SuperOf(a), S_CHECKSUM) && Sealed(SuperOf(b), S_CHECKSUM)
    ensures RootInodeAddr(SuperOf(a)) == RootInodeAddr(SuperOf(b))
  {
    hide Get, Sealed;
    var at', w' := SliceDiffers(a, b, at, w, 0, 256);
    assert a[0..256] == SuperOf(a) && b[0..256] == SuperOf(b);
    SealedBurst(SuperOf(a), SuperOf(b), S_CHECKSUM, at', w');
    GetFrame(SuperOf(a), SuperOf(b), 144, 8);
  }

  lemma SameBit(a: Block, b: Block, at: nat, w: nat, i: nat)
    requires DifferWithin(a, b, at, w) && w <= 4 && Sealed(a, BB_CHECKSUM) && Sealed(b, BB_CHECKSUM) && i < MAX_INODES
    ensures BitSet(a, i) == BitSet(b, i)
  {
    hide Sealed, Pow2;
    SealedBurst(a, b, BB_CHECKSUM, at, w);
    assert a[16 + i / 8] == b[16 + i / 8];
  }

  /** What the scan of an inode looks at. */
  lemma SameInode(a: Block, b: Block, at: nat, w: nat, i: nat)
    requires DifferWithin(a, b, at, w) && w <= 4 && i < INODES_READ
    requires var x, y := a[INODE_SIZE * i..INODE_SIZE * i + INODE_SIZE], b[INODE_SIZE * i..INODE_SIZE * i + INODE_SIZE];
             Sealed(x, I_CHECKSUM) && Sealed(y, I_CHECKSUM)
    ensures var x, y := a[INODE_SIZE * i..INODE_SIZE * i + INODE_SIZE], b[INODE_SIZE * i..INODE_SIZE * i + INODE_SIZE];
            Mode(x) == Mode(y) && ExtentRoot(x) == ExtentRoot(y)
  {
    hide Get, Sealed;
    var x, y := a[INODE_SIZE * i..INODE_SIZE * i + INODE_SIZE], b[INODE_SIZE * i..INODE_SIZE * i + INODE_SIZE];
    var at', w' := SliceDiffers(a, b, at, w, INODE_SIZE * i, INODE_SIZE);
    SealedBurst(x, y, I_CHECKSUM, at', w');
    GetFrame(x, y, 0, 2);
    GetFrame(x, y, 52, 8);
  }

  /** A number below 256 is its first byte. */
  lemma SmallCount(b: Block)
    requires NodeCount(b) <= EXTENTS_MAX
    ensures NodeCount(b) == b[8]
  {
    assert Get(b, 8, 4) == b[8] + 256 * Get(b, 9, 3);
  }

  /** The extents of a node, their order included. */
  lemma SameExtents(a: Block, b: Block, at: nat, w: nat, e: nat)
    requires DifferWithin(a, b, at, w) && w <= 4 && Sealed(a, EN_CHECKSUM) && Sealed(b, EN_CHECKSUM)
    requires NodeCount(a) <= EXTENTS_MAX && NodeCount(b) <= EXTENTS_MAX && e < EXTENTS_MAX
    ensures NodeCount(a) == NodeCount(b)
    ensures ExtentStart(a, e) == ExtentStart(b, e) && ExtentLen(a, e) == ExtentLen(b, e) && ExtentSums(a, e) == ExtentSums(b, e)
  {
    hide Get, Sealed, NodeCount;
    SealedBurst(a, b, EN_CHECKSUM, at, w);
    SmallCount(a);
    SmallCount(b);
    GetFrame(a, b, 24 + 40 * e, 8);
    GetFrame(a, b, 32 + 40 * e, 8);
    GetFrame(a, b, 40 + 40 * e, 8);
  }

  /** Where both can be read, both read the same. */
  ghost predicate SameOn(rd: Reader, rd': Reader, chain: seq<nat>) {
    forall x :: x in chain && rd(x).Ok? && rd'(x).Ok? ==> rd(x) == rd'(x)
  }

  /** Chains that start alike and whose blocks read alike are the same. */
  lemma {:induction false} SameChain(rd: Reader, rd': Reader, blocks: nat, blocks': nat, pstart: nat, len: nat, csum: nat, done: nat)
    requires done <= len && WalkChain(rd, blocks, pstart, len, csum, done).Ok? && WalkChain(rd', blocks', pstart, len, csum, done).Ok?
    requires SameOn(rd, rd', WalkChain(rd, blocks, pstart, len, csum, done).value)
    ensures WalkChain(rd', blocks', pstart, len, csum, done) == WalkChain(rd, blocks, pstart, len, csum, done)
    decreases len - done
  {
    hide ReadLink;
    if done < len {
      var rest := WalkChain(rd, blocks, pstart, len, ReadLink(rd, blocks, pstart, len, csum, done).value.next,
                            done + ReadLink(rd, blocks, pstart, len, csum, done).value.entries).value;
      assert csum in [csum] + rest && forall x :: x in rest ==> x in [csum] + rest;
      SameLink(rd, rd', blocks, blocks', pstart, len, csum, done);
      SameChain(rd, rd', blocks, blocks', pstart, len, ReadLink(rd, blocks, pstart, len, csum, done).value.next,
                done + ReadLink(rd, blocks, pstart, len, csum, done).value.entries);
    }
  }

  lemma SameLink(rd: Reader, rd': Reader, blocks: nat, blocks': nat, pstart: nat, len: nat, csum: nat, done: nat)
    requires done < len && (rd(csum).Ok? && rd'(csum).Ok? ==> rd(csum) == rd'(csum))
    requires ReadLink(rd, blocks, pstart, len, csum, done).Ok? && ReadLink(rd', blocks', pstart, len, csum, done).Ok?
    ensures ReadLink(rd, blocks, pstart, len, csum, done) == ReadLink(rd', blocks', pstart, len, csum, done)
  {
    hide CheckSums, Sealed;
  }

  /** The sum of a data block cannot be right for both contents. */
  lemma ChainTells(rd: Reader, rd': Reader, blocks: nat, blocks': nat, pstart: nat, len: nat, csum: nat, k: nat, at: nat, w: nat)
    requires WalkChain(rd, blocks, pstart, len, csum, 0).Ok? && k < len && pstart + k < U64
    requires SameOn(rd, rd', WalkChain(rd, blocks, pstart, len, csum, 0).value) && w <= 4
    requires var r, r' := rd(pstart + k), rd'(pstart + k); r.Ok? && r'.Ok? ==> r != r' && DifferWithin(r.value, r'.value, at, w)
    ensures WalkChain(rd', blocks', pstart, len, csum, 0).Err?
  {
    hide WalkChain, OffsetOf, DataChecksum, SumAt, DifferWithin;
    if WalkChain(rd', blocks', pstart, len, csum, 0).Ok? {
      SameChain(rd, rd', blocks, blocks', pstart, len, csum, 0);
      var chain := WalkChain(rd, blocks, pstart, len, csum, 0).value;
      ChainLength(rd, blocks, pstart, len, csum, 0);
      var j, s := EntryFor(rd, chain, |chain|, k);
      ChainReads(rd, blocks, pstart, len, csum, 0);
      ChainReads(rd', blocks', pstart, len, csum, 0);
      SameOffset(rd, rd', chain, j);
      ChainCovers(rd, blocks, pstart, len, csum, 0, j, s);
      ChainCovers(rd', blocks', pstart, len, csum, 0, j, s);
      BurstDetected(rd(pstart + k).value, rd'(pstart + k).value, at, w);
    }
  }

  lemma {:induction false} ChainReads(rd: Reader, blocks: nat, pstart: nat, len: nat, csum: nat, done: nat)
    requires done <= len && WalkChain(rd, blocks, pstart, len, csum, done).Ok?
    ensures forall x :: x in WalkChain(rd, blocks, pstart, len, csum, done).value ==> rd(x).Ok?
    decreases len - done
  {
    hide Sealed, CheckSums;
    if done < len {
      var link := ReadLink(rd, blocks, pstart, len, csum, done).value;
      ChainReads(rd, blocks, pstart, len, link.next, done + link.entries);
    }
  }

  lemma {:induction false} SameOffset(rd: Reader, rd': Reader, chain: seq<nat>, j: nat)
    requires j <= |chain| && forall x :: x in chain ==> rd(x) == rd'(x)
    ensures OffsetOf(rd, chain, j) == OffsetOf(rd', chain, j)
    decreases j
  {
    if j > 0 {
      assert chain[j - 1] in chain;
      SameOffset(rd, rd', chain, j - 1);
    }
  }

  // ------------------------------------------------------------------------- the theorem

  /** A used inode is sealed, and a file's node, extents and chains are good. */
  lemma AcceptedInode(rd: Reader, img: Image, i: nat)
    requires Source(rd, img) && i < MAX_INODES && BitSet(img.bitmap, i)
    ensures Sealed(InodeAt(img, i), I_CHECKSUM)
    ensures IsReg(Mode(InodeAt(img, i))) ==> FileGood(rd, img.blocks, InodeAt(img, i))
  {
    hide Validate, Scanned, BitSet, InodeAt, FileGood, Sealed, Get64, TheScan, TheFree, Tiles, Total, FreeIntervals, Directory, FreeGood, RootDirBlock,
      NodeCount, NodeNext, Get32, Mode, IsDir, IsReg;
    AcceptsExactly(rd, img);
    assert InodeGood(rd, img, Refs(img), i);
    RegNotDir(Mode(InodeAt(img, i)));
  }

  /** Only inodes of the block that is read can be files. */
  lemma FileIndex(img: Image, i: nat)
    requires i < MAX_INODES && IsFile(img, i)
    ensures i < INODES_READ
  {
    if i >= INODES_READ {
      GetZero(InodeAt(img, i), 0, 2);
    }
  }

  /** The inode of a file is found again in the damaged image, and still leads to the
      same extent node. */
  lemma InodeSurvives(rd: Reader, rd': Reader, img: Image, img': Image, i: nat, at: nat, w: nat)
    requires Source(rd, img) && Source(rd', img') && i < MAX_INODES && IsFile(img, i)
    requires DifferWithin(img.inodes, img'.inodes, at, w) && DifferWithin(img.bitmap, img'.bitmap, at, w) && w <= 4
    requires Sealed(img.bitmap, BB_CHECKSUM) && Sealed(img'.bitmap, BB_CHECKSUM)
    ensures ExtentRoot(InodeAt(img', i)) == ExtentRoot(InodeAt(img, i))
    ensures FileGood(rd, img.blocks, InodeAt(img, i)) && FileGood(rd', img'.blocks, InodeAt(img', i))
  {
    hide Validate, Sealed, DifferWithin, FileGood, BitSet, Mode, ExtentRoot, IsReg;
    FileIndex(img, i);
    SameBit(img.bitmap, img'.bitmap, at, w, i);
    AcceptedInode(rd, img, i);
    AcceptedInode(rd', img', i);
    SameInode(img.inodes, img'.inodes, at, w, i);
  }

  /** So do extent and chain, which then cannot match the damaged block. */
  lemma ExtentTells(rd: Reader, rd': Reader, blocks: nat, blocks': nat, inode: Inode, inode': Inode, e: nat, k: nat, was: Block, now: Block, at: nat, w: nat)
    requires FileGood(rd, blocks, inode) && ExtentRoot(inode) == ExtentRoot(inode')
    requires Alike(rd, rd', was, now) && DifferWithin(was, now, at, w) && w <= 4 && e < EXTENTS_MAX
    requires PlaceIn(rd, blocks, inode, Data(e, k))
    requires var d := BlockAt(rd, blocks, inode, Data(e, k)); d < U64 && rd(d) == Ok(was) && (rd'(d).Ok? ==> rd'(d) == Ok(now)) && was != now
    requires SameOn(rd, rd', ChainOf(rd, blocks, NodeOf(rd, inode), e))
    ensures !FileGood(rd', blocks', inode')
  {
    hide WalkChain, ExtentStart, ExtentLen, ExtentSums, ExtentLogical, Sealed, SizeBad, LenSum, NodeCount, NodeNext, Alike, DifferWithin, ExtentRoot;
    var root := ExtentRoot(inode);
    var node := rd(root).value;
    assert ExtentGood(rd, blocks, node, e);
    ChainTells(rd, rd', blocks, blocks', ExtentStart(node, e), ExtentLen(node, e), ExtentSums(node, e), k, at, w);
    if rd'(root).Ok? && Sealed(rd'(root).value, EN_CHECKSUM) && NodeCount(rd'(root).value) <= EXTENTS_MAX {
      AlikeAt(rd, rd', was, now, at, w, root);
      SameExtents(node, rd'(root).value, at, w, e);
      assert !ExtentGood(rd', blocks', rd'(root).value, e);
    }
  }

  /** An accepted image in which a data block of a file reads differently within one to
      four consecutive bytes is rejected, whatever else shows the damage (superblock,
      bitmap, inode table, directory, journal, extent nodes, data), if the chain that
      holds the sum does not. */
  lemma BurstRejected(rd: Reader, rd': Reader, logical: nat, members: nat, logical': nat, members': nat, i: nat, e: nat, k: nat, d: nat, now: Block,
                      at: nat, w: nat)
    requires Load(rd, logical, members).Ok? && Source(rd, Load(rd, logical, members).value)
    requires OwnedBy(rd, Load(rd, logical, members).value, i, Data(e, k), d) && rd(d).Ok?
    requires Alike(rd, rd', rd(d).value, now) && (rd'(d).Ok? ==> rd'(d) == Ok(now))
    requires DifferWithin(rd(d).value, now, at, w) && w <= 4 && now != rd(d).value
    requires var img := Load(rd, logical, members).value; SameOn(rd, rd', ChainOf(rd, img.blocks, NodeOf(rd, InodeAt(img, i)), e))
    ensures Load(rd', logical', members').Ok? ==>
              Loaded(Load(rd', logical', members').value) && Validate(rd', Load(rd', logical', members').value).Err?
  {
    hide Load, Validate, CheckSuper, CheckCheckpoint, JournalSealed, SuperOf, JournalOf, JournalAddr, RootInodeAddr, BlocksCount,
      Alike, DifferWithin, InodeAt, IsFile, PlaceIn, BlockAt, NodeOf, ChainOf, FileGood, ExtentRoot, BitSet, CountSet;
    var img := Load(rd, logical, members).value;
    LoadParts(rd, logical, members);
    if Load(rd', logical', members').Ok? {
      LoadParts(rd', logical', members');
      var img' := Load(rd', logical', members').value;
      if Validate(rd', img').Ok? {
        OwnedInside(rd, img, i, Data(e, k), d);
        SameTables(rd, rd', img, img', logical, members, logical', members', rd(d).value, now, at, w);
        InodeSurvives(rd, rd', img, img', i, at, w);
        ExtentTells(rd, rd', img.blocks, img'.blocks, InodeAt(img, i), InodeAt(img', i), e, k, rd(d).value, now, at, w);
      }
    }
  }

  lemma OwnedInside(rd: Reader, img: Image, i: nat, p: Place, d: nat)
    requires Source(rd, img) && OwnedBy(rd, img, i, p, d)
    ensures DATA_START <= d < img.blocks < U64
    ensures p.Data? ==> p.extent < EXTENTS_MAX
  {
    hide Validate, InodeAt, IsFile, TheFree, Scanned;
    assert p.Data? ==> p.extent < EXTENTS_MAX;
    hide PlaceIn, BlockAt;
    OwnedOrFree(rd, img, d);
  }

  lemma SameTables(rd: Reader, rd': Reader, img: Image, img': Image, logical: nat, members: nat, logical': nat, members': nat,
                   was: Block, now: Block, at: nat, w: nat)
    requires Load(rd, logical, members) == Ok(img) && Load(rd', logical', members') == Ok(img')
    requires Alike(rd, rd', was, now) && DifferWithin(was, now, at, w) && w <= 4
    ensures DifferWithin(img.inodes, img'.inodes, at, w) && DifferWithin(img.bitmap, img'.bitmap, at, w)
    ensures Sealed(img.bitmap, BB_CHECKSUM) && Sealed(img'.bitmap, BB_CHECKSUM)
  {
    hide Load, CheckCheckpoint, JournalSealed, SuperOf, JournalOf, JournalAddr, RootInodeAddr, Alike, DifferWithin, CountSet, Sealed, Get32, Get64;
    LoadParts(rd, logical, members);
    LoadParts(rd', logical', members');
    AlikeAt(rd, rd', was, now, at, w, SUPER_BLOCK);
    SameTableAddr(rd(SUPER_BLOCK).value, rd'(SUPER_BLOCK).value, at, w);
    AlikeAt(rd, rd', was, now, at, w, RootInodeAddr(img.super));
    AlikeAt(rd, rd', was, now, at, w, INODE_BITMAP_BLOCK);
  }
}
