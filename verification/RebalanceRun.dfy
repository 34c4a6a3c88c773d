/** The layout loop of rebalance: every file at its planned place, with its inode
    rewritten. */
module RebalanceRun {
  import opened Bytes
  import opened Layout
  import opened V = Validator
  import opened ValidatorLaws
  import opened Packing
  import opened SpaceBound
  import opened Compaction
  import opened PoolMap
  import opened PoolOpen
  import opened ImageCheck
  import opened SingleDevice
  import opened Rebalance

  // ------------------------------------------------------------------------- one file

  /** Everything packing one file relies on; an accepted source provides it. */
  ghost predicate CanPack(rd: Reader, p: Pool, blocks: nat, n: nat, inode: Inode, next: nat)
    requires PoolMap.Opened(p)
  {
    var node := ReadExtentNode(rd, ExtentRoot(inode));
    && node.Ok? && NodeNext(node.value) == 0 && NodeCount(node.value) <= EXTENTS_MAX
    && AllExtentsRead(rd, node.value) && Contents(rd, inode) == FileBlocks(rd, node.value, 0, 0)
    && |Contents(rd, inode)| == Blocks(inode) > 0
    && Region(p, n, next, Cost(Blocks(inode))) && next + Cost(Blocks(inode)) <= blocks
  }

  lemma SubRegion(p: Pool, n: nat, at: nat, len: nat, at': nat, len': nat)
    requires PoolMap.Opened(p) && Region(p, n, at, len) && at <= at' && at' + len' <= at + len
    ensures Region(p, n, at', len')
  {
  }

  lemma OverlaySet(t: Device, at: nat, x: Block, bs: seq<Block>)
    requires at + 1 + |bs| <= |t|
    ensures SetBlock(Overlay(t, at + 1, bs), at, x) == Overlay(t, at, [x] + bs)
  {
    var l, r := SetBlock(Overlay(t, at + 1, bs), at, x), Overlay(t, at, [x] + bs);
    forall i | 0 <= i < |t|
      ensures l[i] == r[i]
    {
      OverlayAt(t, at + 1, bs, i);
      OverlayAt(t, at, [x] + bs, i);
    }
    assert l == r;
  }

  lemma OverlaySlice(t: Device, at: nat, bs: seq<Block>)
    requires at + |bs| <= |t|
    ensures Overlay(t, at, bs)[at..at + |bs|] == bs
  {
    var l := Overlay(t, at, bs)[at..at + |bs|];
    forall i | 0 <= i < |bs|
      ensures l[i] == bs[i]
    {
      OverlayAt(t, at, bs, at + i);
    }
  }

  /** Node, data and chain, written in the order data, chain, node, are the packed file. */
  lemma PackedOverlay(t: Device, next: nat, data: seq<Block>)
    requires data != [] && next + Cost(|data|) <= |t|
    ensures var chain := ChainBlocks(data, next + 1 + |data|);
            && |chain| == SumsNeeded(|data|) && |FileImage(data, next)| == Cost(|data|)
            && SetBlock(Overlay(Overlay(t, next + 1, data), next + 1 + |data|, chain), next, NodeBlock(next + 1, next + 1 + |data|, |data|)) ==
               Overlay(t, next, FileImage(data, next))
  {
    hide ChainBlocks, NodeBlock, Overlay;
    var chain := ChainBlocks(data, next + 1 + |data|);
    var node := NodeBlock(next + 1, next + 1 + |data|, |data|);
    ChainBlocksLength(data, next + 1 + |data|);
    OverlayConcat(t, next + 1, data, chain);
    OverlaySet(t, next, node, data + chain);
    assert [node] + (data + chain) == [node] + data + chain;
  }

  /** One turn of the layout loop for a file with data. */
  method PackFile(rd: Reader, p: Pool, blocks: nat, target: Device, inode: Inode, next: nat) returns (r: Result<Device>)
    requires OnDevice(p, target) && Blocks(inode) > 0
    ensures r.Ok? ==> |r.value| == |target| && next + Cost(Blocks(inode)) <= blocks
    ensures CanPack(rd, p, blocks, |target|, inode, next) ==>
              && next + |FileImage(Contents(rd, inode), next)| <= |target|
              && r == Ok(Overlay(target, next, FileImage(Contents(rd, inode), next)))
  {
    hide Reaches, PoolMap.Opened, Blocks, FileImage, ChainBlocks, NodeBlock, FileBlocks, ReadExtentNode, NodeCount, Overlay;
    ghost var good := CanPack(rd, p, blocks, |target|, inode, next);
    var node := ReadExtentNode(rd, ExtentRoot(inode));
    if node.Err? {
      return Err(node.error);
    }
    if NodeNext(node.value) != 0 || NodeCount(node.value) > EXTENTS_MAX {
      return Err(EINVAL);
    }
    var n := Blocks(inode);
    var dataStart, csumStart := next + 1, next + 1 + n;
    if csumStart + SumsNeeded(n) > blocks {
      return Err(ENOSPC);
    }
    ghost var data := Contents(rd, inode);
    if good {
      SubRegion(p, |target|, next, Cost(n), next, 1);
      SubRegion(p, |target|, next, Cost(n), dataStart, n);
      SubRegion(p, |target|, next, Cost(n), csumStart, SumsNeeded(n));
      PackedOverlay(target, next, data);
      OverlaySlice(target, dataStart, data);
    }
    var t1 := CopyFileData(rd, node.value, p, target, dataStart);
    if t1.Err? {
      return Err(t1.error);
    }
    OnDeviceKept(p, target, t1.value);
    var t2 := WriteChecksumChain(p, t1.value, dataStart, n, csumStart);
    if t2.Err? {
      return Err(t2.error);
    }
    OnDeviceKept(p, target, t2.value);
    r := WriteTo(p, t2.value, next, NodeBlock(dataStart, csumStart, n));
  }

  // ------------------------------------------------------------------- the inode table

  function TableInode(table: Block, i: nat): Inode
    requires i < INODES_READ
  {
    table[INODE_SIZE * i..INODE_SIZE * i + INODE_SIZE]
  }

  function SetInode(table: Block, i: nat, inode: Inode): (r: Block)
    requires i < INODES_READ
  {
    table[..INODE_SIZE * i] + inode + table[INODE_SIZE * i + INODE_SIZE..]
  }

  lemma SetInodeAt(table: Block, i: nat, inode: Inode, j: nat)
    requires i < INODES_READ && j < INODES_READ
    ensures TableInode(SetInode(table, i, inode), j) == if i == j then inode else TableInode(table, j)
  {
    var r := SetInode(table, i, inode);
    if j < i {
      assert INODE_SIZE * j + INODE_SIZE <= INODE_SIZE * i;
    } else if i < j {
      assert INODE_SIZE * i + INODE_SIZE <= INODE_SIZE * j;
    }
  }

  // ------------------------------------------------------------------------- the loop

  /** t shows the blocks bs from at on. */
  ghost predicate HoldsAt(t: Device, at: nat, bs: seq<Block>) {
    at + |bs| <= |t| && t[at..at + |bs|] == bs
  }

  /** The files below inode i are packed and their inodes rewritten; the rest, and
      the bootstrap blocks, are as they were. */
  ghost predicate Progress(rd: Reader, img: Image, t0: Device, t: Device, table: Block, i: nat)
    requires 1 <= i <= MAX_INODES
  {
    && |t| == |t0| && DATA_START <= |t| && t[..DATA_START] == t0[..DATA_START]
    && (forall j :: 1 <= j < i && IsFile(img, j) && Blocks(InodeAt(img, j)) > 0 ==>
                      HoldsAt(t, Next(img, j), FileImage(Contents(rd, InodeAt(img, j)), Next(img, j))))
    && (forall j :: 0 <= j < INODES_READ ==>
                      TableInode(table, j) == if j < i then PackedInode(img, j) else InodeAt(img, j))
  }

  lemma ProgressStart(rd: Reader, img: Image, t0: Device)
    requires DATA_START <= |t0|
    ensures Progress(rd, img, t0, t0, img.inodes, 1) && Next(img, 1) == DATA_START
  {
    hide NewInode, FileImage, Contents, IsFile;
    assert PackedInode(img, 0) == InodeAt(img, 0);
    assert Next(img, 1) == Next(img, 0) + PackedCost(img, 0);
  }

  /** An inode that is no regular file is passed over. */
  lemma ProgressSkips(rd: Reader, img: Image, t0: Device, t: Device, table: Block, i: nat)
    requires 1 <= i < MAX_INODES && Progress(rd, img, t0, t, table, i) && !IsFile(img, i)
    ensures Progress(rd, img, t0, t, table, i + 1) && Next(img, i + 1) == Next(img, i)
  {
    hide NewInode, FileImage, Contents, IsFile, InodeAt, TableInode, HoldsAt, Next;
    NextSkips(img, i);
    assert PackedInode(img, i) == InodeAt(img, i);
  }

  lemma NextSkips(img: Image, i: nat)
    requires i < MAX_INODES && !IsFile(img, i)
    ensures Next(img, i + 1) == Next(img, i)
  {
    hide IsFile, InodeAt;
  }

  lemma ProgressEmpty(rd: Reader, img: Image, t0: Device, t: Device, table: Block, i: nat)
    requires 1 <= i < INODES_READ && Progress(rd, img, t0, t, table, i) && IsFile(img, i) && Blocks(InodeAt(img, i)) == 0
    ensures Progress(rd, img, t0, t, SetInode(table, i, NewInode(TableInode(table, i), 0)), i + 1)
    ensures Next(img, i + 1) == Next(img, i)
  {
    hide NewInode, FileImage, Contents, IsFile, SetInode, InodeAt;
    var table' := SetInode(table, i, NewInode(TableInode(table, i), 0));
    forall j | 0 <= j < INODES_READ
      ensures TableInode(table', j) == if j < i + 1 then PackedInode(img, j) else InodeAt(img, j)
    {
      SetInodeAt(table, i, NewInode(TableInode(table, i), 0), j);
    }
  }

  lemma ProgressPacks(rd: Reader, img: Image, t0: Device, t: Device, table: Block, i: nat, data: seq<Block>)
    requires 1 <= i < INODES_READ && Progress(rd, img, t0, t, table, i) && IsFile(img, i)
    requires data == Contents(rd, InodeAt(img, i)) && |data| == Blocks(InodeAt(img, i)) > 0
    requires Next(img, i) + |FileImage(data, Next(img, i))| <= |t|
    requires forall j :: 1 <= j < i && IsFile(img, j) ==> |Contents(rd, InodeAt(img, j))| == Blocks(InodeAt(img, j))
    ensures var at := Next(img, i);
            Progress(rd, img, t0, Overlay(t, at, FileImage(data, at)), SetInode(table, i, NewInode(TableInode(table, i), at)), i + 1)
    ensures Next(img, i + 1) == Next(img, i) + Cost(Blocks(InodeAt(img, i)))
  {
    hide NewInode, FileImage, Contents, IsFile, SetInode, InodeAt, Overlay;
    var at := Next(img, i);
    var t' := Overlay(t, at, FileImage(data, at));
    var table' := SetInode(table, i, NewInode(TableInode(table, i), at));
    forall j | 0 <= j < INODES_READ
      ensures TableInode(table', j) == if j < i + 1 then PackedInode(img, j) else InodeAt(img, j)
    {
      SetInodeAt(table, i, NewInode(TableInode(table, i), at), j);
    }
    NextStarts(img, i);
    KeepsBelow(t, at, FileImage(data, at), 0, DATA_START);
    forall j | 1 <= j < i + 1 && IsFile(img, j) && Blocks(InodeAt(img, j)) > 0
      ensures HoldsAt(t', Next(img, j), FileImage(Contents(rd, InodeAt(img, j)), Next(img, j)))
    {
      if j == i {
        OverlaySlice(t, at, FileImage(data, at));
      } else {
        NextMonotone(img, j, i);
        FileImageLength(Contents(rd, InodeAt(img, j)), Next(img, j));
        KeepsBelow(t, at, FileImage(data, at), Next(img, j), Next(img, j) + Cost(Blocks(InodeAt(img, j))));
      }
    }
  }

  lemma FileImageLength(data: seq<Block>, at: nat)
    requires data != []
    ensures |FileImage(data, at)| == Cost(|data|)
  {
    hide ChainBlocks, NodeBlock;
    ChainBlocksLength(data, at + 1 + |data|);
  }

  lemma KeepsBelow(t: Device, at: nat, bs: seq<Block>, lo: nat, hi: nat)
    requires at + |bs| <= |t| && lo <= hi <= at
    ensures Overlay(t, at, bs)[lo..hi] == t[lo..hi]
  {
    var l, r := Overlay(t, at, bs)[lo..hi], t[lo..hi];
    forall i | 0 <= i < |l|
      ensures l[i] == r[i]
    {
      OverlayAt(t, at, bs, lo + i);
    }
  }

  /** From block n on, t is still t0. */
  ghost predicate SameFrom(t0: Device, t: Device, n: nat) {
    |t| == |t0| && forall b :: n <= b < |t| ==> t[b] == t0[b]
  }

  lemma SameFromStart(t: Device)
    ensures SameFrom(t, t, DATA_START)
  {
  }

  lemma OverlaySameFrom(t0: Device, t: Device, at: nat, bs: seq<Block>)
    requires SameFrom(t0, t, at) && at + |bs| <= |t|
    ensures SameFrom(t0, Overlay(t, at, bs), at + |bs|)
  {
    forall b | at + |bs| <= b < |t|
      ensures Overlay(t, at, bs)[b] == t0[b]
    {
      OverlayAt(t, at, bs, b);
    }
  }

  /** What an accepted source and its device give the layout loop. */
  ghost predicate Prepared(rd: Reader, src: Image, img: Image, p: Pool, blocks: nat, n: nat)
    requires PoolMap.Opened(p)
  {
    && Source(rd, src) && img == src && blocks == src.blocks
    && DATA_START <= Next(src, MAX_INODES) && Region(p, n, DATA_START, Next(src, MAX_INODES) - DATA_START)
  }

  lemma PreparedFile(rd: Reader, src: Image, p: Pool, blocks: nat, n: nat, i: nat)
    requires PoolMap.Opened(p) && Prepared(rd, src, src, p, blocks, n) && 1 <= i < MAX_INODES && IsFile(src, i)
    requires Blocks(InodeAt(src, i)) > 0
    ensures CanPack(rd, p, blocks, n, InodeAt(src, i), Next(src, i))
  {
    hide Validate, IsFile, InodeAt, Contents, FileBlocks, ScanFile, Next, Reaches, PoolMap.Opened, ReadExtentNode,
      NodeCount, ExtentRead, Get64, SizeBad, Sealed;
    SourceFile(rd, src, i);
    ScanFileRead(rd, src.blocks, InodeAt(src, i));
    NextMonotone(src, i, MAX_INODES);
    SourceFacts(rd, src);
    SubRegion(p, n, DATA_START, Next(src, MAX_INODES) - DATA_START, Next(src, i), Cost(Blocks(InodeAt(src, i))));
  }

  lemma SourceLengths(rd: Reader, img: Image)
    requires Source(rd, img)
    ensures forall j :: 1 <= j < MAX_INODES && IsFile(img, j) ==> |Contents(rd, InodeAt(img, j))| == Blocks(InodeAt(img, j))
  {
    hide Validate, IsFile, InodeAt, Contents;
    forall j | 1 <= j < MAX_INODES && IsFile(img, j)
      ensures |Contents(rd, InodeAt(img, j))| == Blocks(InodeAt(img, j))
    {
      SourceFile(rd, img, j);
    }
  }

  /** The loop's variables: target blocks, inode table and `next_block`. */
  datatype Rewritten = Rewritten(target: Device, table: Block, next: nat)

  /** The table has no regular file for the loop to lay out. */
  ghost predicate Idle(table: Block) {
    forall i :: 1 <= i < INODES_READ ==> !IsReg(Mode(TableInode(table, i)))
  }

  /** The layout loop: `next_block`, the target blocks and the inode table. */
  method PackFiles(rd: Reader, src: Image, img: Image, p: Pool, blocks: nat, target: Device) returns (r: Result<Rewritten>)
    requires OnDevice(p, target) && DATA_START <= |target| && DATA_START <= blocks
    ensures r.Ok? ==> |r.value.target| == |target| && DATA_START <= r.value.next <= blocks
    ensures Prepared(rd, src, img, p, blocks, |target|) ==>
              && r.Ok? && r.value.next == Next(src, MAX_INODES)
              && Progress(rd, src, target, r.value.target, r.value.table, MAX_INODES)
              && SameFrom(target, r.value.target, r.value.next)
    ensures Idle(img.inodes) ==> r == Ok(Rewritten(target, img.inodes, DATA_START))
  {
    hide PoolMap.Opened, Source, IsReg, BitSet, NewInode, FileImage, Contents, SetInode, TableInode, Next, Progress, Region, Cost, ReadExtentNode, Blocks,
      AllExtentsRead, FileBlocks, SameFrom, Overlay, NodeCount, NodeNext;
    ghost var good := Prepared(rd, src, img, p, blocks, |target|);
    ghost var idle := Idle(img.inodes);
    var t, table, next: nat := target, img.inodes, DATA_START;
    ProgressStart(rd, img, target);
    SameFromStart(target);
    if good {
      SourceLengths(rd, src);
    }
    for index := 1 to MAX_INODES
      invariant |t| == |target| && OnDevice(p, t) && DATA_START <= next <= blocks
      invariant good ==> Progress(rd, src, target, t, table, index) && next == Next(src, index) && SameFrom(target, t, next)
      invariant idle ==> t == target && table == img.inodes && next == DATA_START
    {
      if index >= INODES_READ || !BitSet(img.bitmap, index) || !IsReg(Mode(TableInode(table, index))) {
        if good {
          SkipsHere(rd, src, target, t, table, index);
        }
        continue;
      }
      if good {
        SameHere(rd, src, target, t, table, index);
      }
      var inode := TableInode(table, index);
      var source := InodeAt(src, index);
      if Blocks(source) == 0 {
        if good {
          ProgressEmpty(rd, src, target, t, table, index);
        }
        table := SetInode(table, index, NewInode(inode, 0));
        continue;
      }
      if good {
        PreparedFile(rd, src, p, blocks, |t|, index);
      }
      var packed := PackFile(rd, p, blocks, t, source, next);
      if good {
        ProgressPacks(rd, src, target, t, table, index, Contents(rd, source));
        FileImageLength(Contents(rd, source), next);
        OverlaySameFrom(target, t, next, FileImage(Contents(rd, source), next));
      }
      if packed.Err? {
        return Err(packed.error);
      }
      OnDeviceKept(p, t, packed.value);
      t, table := packed.value, SetInode(table, index, NewInode(inode, next));
      next := next + Cost(Blocks(source));
    }
    r := Ok(Rewritten(t, table, next));
  }

  lemma SkipsHere(rd: Reader, img: Image, t0: Device, t: Device, table: Block, i: nat)
    requires 1 <= i < MAX_INODES && Progress(rd, img, t0, t, table, i)
    requires i >= INODES_READ || !BitSet(img.bitmap, i) || !IsReg(Mode(TableInode(table, i)))
    ensures Progress(rd, img, t0, t, table, i + 1) && Next(img, i + 1) == Next(img, i)
  {
    hide BitSet, IsReg, NewInode, FileImage, Contents;
    if i >= INODES_READ {
      NoInodesBeyond(img, i);
    }
    assert !IsFile(img, i);
    ProgressSkips(rd, img, t0, t, table, i);
  }

  lemma SameHere(rd: Reader, img: Image, t0: Device, t: Device, table: Block, i: nat)
    requires 1 <= i < INODES_READ && Progress(rd, img, t0, t, table, i)
    requires BitSet(img.bitmap, i) && IsReg(Mode(TableInode(table, i)))
    ensures TableInode(table, i) == InodeAt(img, i) && IsFile(img, i)
  {
    hide BitSet, IsReg, NewInode, FileImage, Contents;
  }
}
