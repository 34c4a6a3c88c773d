/** One file as rebalance writes it: extent node, data, checksum chain, in one
    contiguous run of blocks; and the proof that the validator accepts it. */
module Packing {
  import opened Bytes
  import opened Crc
  import opened Layout
  import opened Intervals
  import opened Validator

  // ------------------------------------------------------------------------- overlay

  /** t with the blocks bs in place from index at on. */
  function Overlay(t: seq<Block>, at: nat, bs: seq<Block>): (r: seq<Block>)
    requires at + |bs| <= |t|
    ensures |r| == |t|
    decreases |bs|
  {
    if bs == [] then t else Overlay(t[at := bs[0]], at + 1, bs[1..])
  }

  lemma {:induction false} OverlayAt(t: seq<Block>, at: nat, bs: seq<Block>, i: nat)
    requires at + |bs| <= |t| && i < |t|
    ensures Overlay(t, at, bs)[i] == if at <= i < at + |bs| then bs[i - at] else t[i]
    decreases |bs|
  {
    if bs != [] {
      OverlayAt(t[at := bs[0]], at + 1, bs[1..], i);
    }
  }

  lemma {:induction false} OverlayConcat(t: seq<Block>, at: nat, a: seq<Block>, b: seq<Block>)
    requires at + |a| + |b| <= |t|
    ensures Overlay(Overlay(t, at, a), at + |a|, b) == Overlay(t, at, a + b)
    decreases |a|
  {
    if a == [] {
      assert a + b == b;
    } else {
      assert (a + b)[1..] == a[1..] + b;
      OverlayConcat(t[at := a[0]], at + 1, a[1..], b);
    }
  }

  // ------------------------------------------------------------------ checksum blocks

  /** A zero block with the checksums of the first k blocks of data in place. */
  function PutSums(data: seq<Block>, k: nat): Block
    requires k <= |data| && k <= SUMS_PER_BLOCK
    decreases k, data
  {
    if k == 0 then ZeroBlock() else PutBlock(PutSums(data, k - 1), 16 + 4 * (k - 1), 4, DataChecksum(data[k - 1]))
  }

  function FinishSums(b: Block, entries: nat, next: nat): Block {
    Seal(PutBlock(PutBlock(b, 8, 4, entries), 0, 8, next), CB_CHECKSUM)
  }

  function SumBlock(data: seq<Block>, next: nat): Block
    requires |data| <= SUMS_PER_BLOCK
  {
    FinishSums(PutSums(data, |data|), |data|, next)
  }

  lemma {:induction false} PutSumsAt(data: seq<Block>, k: nat, i: nat)
    requires i < k <= |data| && k <= SUMS_PER_BLOCK
    ensures Get(PutSums(data, k), 16 + 4 * i, 4) == DataChecksum(data[i])
    decreases k
  {
    hide DataChecksum, Get, Put;
    var before := PutSums(data, k - 1);
    if i == k - 1 {
      DataChecksumBound(data[i]);
      Pow256Values();
      GetPut(before, 16 + 4 * i, 4, DataChecksum(data[i]));
    } else {
      PutSumsAt(data, k - 1, i);
      GetPutOther(before, 16 + 4 * (k - 1), 4, DataChecksum(data[k - 1]), 16 + 4 * i, 4);
    }
  }

  /** Finishing a checksum block leaves the sums and makes the header valid. */
  lemma FinishFields(b: Block, entries: nat, next: nat, i: nat)
    requires entries < U32 && next < U64 && i < SUMS_PER_BLOCK
    ensures var r := FinishSums(b, entries, next);
            && Sealed(r, CB_CHECKSUM) && SumsEntries(r) == entries && SumsNext(r) == next
            && SumAt(r, i) == Get(b, 16 + 4 * i, 4)
  {
    hide Get, Put;
    var b1 := PutBlock(b, 8, 4, entries);
    var b2 := PutBlock(b1, 0, 8, next);
    var r := FinishSums(b, entries, next);
    Pow256Values();
    SealSeals(b2, CB_CHECKSUM);
    GetPut(b, 8, 4, entries);
    GetPutOther(b1, 0, 8, next, 8, 4);
    GetFrame(r, b2, 8, 4);
    GetPut(b1, 0, 8, next);
    GetFrame(r, b2, 0, 8);
    GetPutOther(b, 8, 4, entries, 16 + 4 * i, 4);
    GetPutOther(b1, 0, 8, next, 16 + 4 * i, 4);
    GetFrame(r, b2, 16 + 4 * i, 4);
  }

  lemma SumBlockHeader(data: seq<Block>, next: nat)
    requires |data| <= SUMS_PER_BLOCK && next < U64
    ensures var r := SumBlock(data, next);
            Sealed(r, CB_CHECKSUM) && SumsEntries(r) == |data| && SumsNext(r) == next
  {
    hide FinishSums, PutSums, Sealed;
    FinishFields(PutSums(data, |data|), |data|, next, 0);
  }

  lemma SumBlockAt(data: seq<Block>, next: nat, i: nat)
    requires |data| <= SUMS_PER_BLOCK && next < U64 && i < |data|
    ensures SumAt(SumBlock(data, next), i) == DataChecksum(data[i])
  {
    hide FinishSums, PutSums, Sealed, DataChecksum;
    FinishFields(PutSums(data, |data|), |data|, next, i);
    PutSumsAt(data, |data|, i);
  }

  // ------------------------------------------------------------------------ the chain

  /** Checksum blocks needed for n data blocks. */
  function SumsNeeded(n: nat): nat {
    (n + 1019) / 1020
  }

  function Chunk(data: seq<Block>): (r: nat)
    ensures r <= |data| && r <= SUMS_PER_BLOCK && (data != [] ==> r > 0)
  {
    if |data| > SUMS_PER_BLOCK then SUMS_PER_BLOCK else |data|
  }

  /** The checksum chain of data, stored from block start on. */
  function ChainBlocks(data: seq<Block>, start: nat): (r: seq<Block>)
    decreases |data|
  {
    if data == [] then [] else
    var n := Chunk(data);
    [SumBlock(data[..n], if |data| > n then start + 1 else 0)] + ChainBlocks(data[n..], start + 1)
  }

  lemma {:induction false} ChainBlocksLength(data: seq<Block>, start: nat)
    ensures |ChainBlocks(data, start)| == SumsNeeded(|data|)
    decreases |data|
  {
    hide SumBlock;
    if data != [] {
      ChainBlocksLength(data[Chunk(data)..], start + 1);
    }
  }

  /** at, at + 1, ..., at + n - 1 */
  function From(at: nat, n: nat): (r: seq<nat>)
    ensures |r| == n
  {
    seq(n, i requires 0 <= i < n => at + i)
  }

  /** rd shows the blocks bs from block at on. */
  ghost predicate ShowsAt(rd: Reader, at: nat, bs: seq<Block>) {
    forall i :: 0 <= i < |bs| ==> rd(at + i) == Ok(bs[i])
  }

  lemma ShowsTail(rd: Reader, at: nat, bs: seq<Block>, n: nat)
    requires ShowsAt(rd, at, bs) && n <= |bs|
    ensures ShowsAt(rd, at, bs[..n]) && ShowsAt(rd, at + n, bs[n..])
  {
    forall i | 0 <= i < |bs[n..]|
      ensures rd(at + n + i) == Ok(bs[n..][i])
    {
      assert rd(at + (n + i)) == Ok(bs[n + i]);
    }
  }

  lemma {:induction false} SumsPass(rd: Reader, data: seq<Block>, next: nat, base: nat, k: nat)
    requires |data| <= SUMS_PER_BLOCK && next < U64 && k <= |data| && base + |data| <= U64 && ShowsAt(rd, base, data)
    ensures CheckSums(rd, SumBlock(data, next), base, k, |data|).Zero?
    decreases |data| - k
  {
    hide SumBlock, DataChecksum, SumAt;
    if k < |data| {
      assert rd(base + k) == Ok(data[k]);
      assert Add64(base, k) == base + k;
      SumBlockAt(data, next, k);
      SumsPass(rd, data, next, base, k + 1);
    }
  }

  /** One chain block of a packed file passes. */
  lemma LinkPasses(rd: Reader, blocks: nat, pstart: nat, len: nat, c: nat, done: nat, data: seq<Block>)
    requires data != [] && len == done + |data| && pstart + len <= U64 && DATA_START <= c && c + 1 < U64
    requires |data| > SUMS_PER_BLOCK ==> c + 1 < blocks
    requires ShowsAt(rd, pstart + done, data)
    requires rd(c) == Ok(SumBlock(data[..Chunk(data)], if |data| > Chunk(data) then c + 1 else 0))
    ensures ReadLink(rd, blocks, pstart, len, c, done) == Ok(Link(Chunk(data), if |data| > Chunk(data) then c + 1 else 0))
  {
    hide SumBlock, CheckSums, Sealed;
    var n := Chunk(data);
    var next := if |data| > n then c + 1 else 0;
    SumBlockHeader(data[..n], next);
    ShowsTail(rd, pstart + done, data, n);
    SumsPass(rd, data[..n], next, pstart + done, 0);
  }

  /** The validator walks a packed chain from end to end. */
  lemma {:induction false} ChainPasses(rd: Reader, blocks: nat, pstart: nat, len: nat, c: nat, done: nat, data: seq<Block>)
    requires len == done + |data| && pstart + len <= U64 && DATA_START <= c && blocks < U64
    requires c + SumsNeeded(|data|) <= blocks
    requires ShowsAt(rd, pstart + done, data) && ShowsAt(rd, c, ChainBlocks(data, c))
    ensures WalkChain(rd, blocks, pstart, len, c, done) == Ok(From(c, SumsNeeded(|data|)))
    decreases |data|
  {
    hide SumBlock, ReadLink;
    if data != [] {
      var n := Chunk(data);
      var chain := ChainBlocks(data, c);
      ChainBlocksLength(data, c);
      ShowsTail(rd, c, chain, 1);
      assert chain[1..] == ChainBlocks(data[n..], c + 1);
      assert rd(c + 0) == Ok(chain[0]);
      LinkPasses(rd, blocks, pstart, len, c, done, data);
      ShowsTail(rd, pstart + done, data, n);
      if |data| > n {
        ChainPasses(rd, blocks, pstart, len, c + 1, done + n, data[n..]);
      }
      assert From(c, SumsNeeded(|data|)) == [c] + From(c + 1, SumsNeeded(|data[n..]|));
    }
  }

  // --------------------------------------------------------------------- extent node

  /** The extent node rebalance writes: one extent. */
  function NodeBlock(pstart: nat, csum: nat, len: nat): Block {
    Seal(PutBlock(PutBlock(PutBlock(PutBlock(ZeroBlock(), 8, 4, 1), 24, 8, pstart), 32, 8, csum), 40, 8, len), EN_CHECKSUM)
  }

  lemma NodeFields(pstart: nat, csum: nat, len: nat)
    requires pstart < U64 && csum < U64 && len < U64
    ensures var r := NodeBlock(pstart, csum, len);
            && Sealed(r, EN_CHECKSUM) && NodeNext(r) == 0 && NodeCount(r) == 1
            && ExtentLogical(r, 0) == 0 && ExtentStart(r, 0) == pstart && ExtentSums(r, 0) == csum && ExtentLen(r, 0) == len
  {
    hide Get, Put;
    var b1 := PutBlock(ZeroBlock(), 8, 4, 1);
    var b2 := PutBlock(b1, 24, 8, pstart);
    var b3 := PutBlock(b2, 32, 8, csum);
    var b4 := PutBlock(b3, 40, 8, len);
    var r := NodeBlock(pstart, csum, len);
    Pow256Values();
    SealSeals(b4, EN_CHECKSUM);
    GetPut(ZeroBlock(), 8, 4, 1);
    GetFrame(r, b1, 8, 4);
    GetPut(b1, 24, 8, pstart);
    GetFrame(r, b2, 24, 8);
    GetPut(b2, 32, 8, csum);
    GetFrame(r, b3, 32, 8);
    GetPut(b3, 40, 8, len);
    GetFrame(r, b4, 40, 8);
    GetZero(r, 0, 8);
    GetZero(r, 16, 8);
  }

  // --------------------------------------------------------------------- whole files

  /** The data blocks of the extents of a node, from block k of extent e on. */
  function FileBlocks(rd: Reader, node: Block, e: nat, k: nat): seq<Block>
    requires e <= NodeCount(node) <= EXTENTS_MAX
    decreases NodeCount(node) - e, if e < NodeCount(node) then ExtentLen(node, e) - k else 0
  {
    if e == NodeCount(node) then []
    else if k >= ExtentLen(node, e) then FileBlocks(rd, node, e + 1, 0)
    else
      var r := rd(ExtentStart(node, e) + k);
      [if r.Ok? then r.value else ZeroBlock()] + FileBlocks(rd, node, e, k + 1)
  }

  /** The contents of a file: the blocks of its extents in logical order. */
  function Contents(rd: Reader, inode: Inode): seq<Block> {
    var root := rd(ExtentRoot(inode));
    if root.Ok? && NodeCount(root.value) <= EXTENTS_MAX then FileBlocks(rd, root.value, 0, 0) else []
  }

  /** A file packed from block at on. */
  function FileImage(data: seq<Block>, at: nat): seq<Block> {
    [NodeBlock(at + 1, at + 1 + |data|, |data|)] + data + ChainBlocks(data, at + 1 + |data|)
  }

  /** Blocks a packed file of n data blocks takes. */
  function Cost(n: nat): nat {
    if n == 0 then 0 else 1 + n + SumsNeeded(n)
  }

  lemma FileImageParts(rd: Reader, at: nat, data: seq<Block>)
    requires data != [] && ShowsAt(rd, at, FileImage(data, at))
    ensures |FileImage(data, at)| == Cost(|data|)
    ensures rd(at) == Ok(NodeBlock(at + 1, at + 1 + |data|, |data|))
    ensures ShowsAt(rd, at + 1, data)
    ensures ShowsAt(rd, at + 1 + |data|, ChainBlocks(data, at + 1 + |data|))
  {
    hide NodeBlock, ChainBlocks;
    var node, chain := NodeBlock(at + 1, at + 1 + |data|, |data|), ChainBlocks(data, at + 1 + |data|);
    var all := FileImage(data, at);
    ChainBlocksLength(data, at + 1 + |data|);
    assert rd(at + 0) == Ok(all[0]);
    ShowsTail(rd, at, all, 1);
    assert all[1..] == data + chain;
    ShowsTail(rd, at + 1, data + chain, |data|);
    assert (data + chain)[..|data|] == data && (data + chain)[|data|..] == chain;
  }

  /** What a packed file uses, in the order the validator lists it. */
  function PackedUse(at: nat, n: nat): seq<Interval> {
    [Interval(at, 1), Interval(at + 1, n)] + Singles(From(at + 1 + n, SumsNeeded(n)))
  }

  /** The validator accepts a packed file and lists just its blocks. */
  lemma PackedScans(rd: Reader, blocks: nat, inode: Inode, at: nat, data: seq<Block>)
    requires data != [] && ShowsAt(rd, at, FileImage(data, at))
    requires DATA_START <= at && at + Cost(|data|) <= blocks < U64
    requires ExtentRoot(inode) == at && Blocks(inode) == |data| && !SizeBad(|data|, Size(inode))
    ensures ScanFile(rd, blocks, inode) == Ok(FileScan(PackedUse(at, |data|), |data|))
  {
    hide NodeBlock, ChainBlocks, Sealed, SizeBad, Get64, Get32, WalkChain, FileImage;
    var n := |data|;
    FileImageParts(rd, at, data);
    NodeFields(at + 1, at + 1 + n, n);
    var node := NodeBlock(at + 1, at + 1 + n, n);
    ChainPasses(rd, blocks, at + 1, n, at + 1 + n, 0, data);
    assert ScanExtents(rd, blocks, node, 0) == Ok(FileScan([], 0));
    assert !ExtentBad(blocks, node, 0, 0);
    assert ScanExtents(rd, blocks, node, 1) == Ok(FileScan([] + [Interval(at + 1, n)] + Singles(From(at + 1 + n, SumsNeeded(n))), n));
    assert [Interval(at, 1)] + ([] + [Interval(at + 1, n)] + Singles(From(at + 1 + n, SumsNeeded(n)))) == PackedUse(at, n);
  }

  lemma {:induction false} OneExtentBlocks(rd: Reader, node: Block, data: seq<Block>, k: nat)
    requires NodeCount(node) == 1 && ExtentLen(node, 0) == |data| && k <= |data| && ShowsAt(rd, ExtentStart(node, 0), data)
    ensures FileBlocks(rd, node, 0, k) == data[k..]
    decreases |data| - k
  {
    hide Get64, Get32;
    if k < |data| {
      OneExtentBlocks(rd, node, data, k + 1);
      assert rd(ExtentStart(node, 0) + k) == Ok(data[k]);
      assert data[k..] == [data[k]] + data[k + 1..];
    } else {
      assert FileBlocks(rd, node, 1, 0) == [];
    }
  }

  /** A packed file has the contents it was packed from. */
  lemma PackedContents(rd: Reader, inode: Inode, at: nat, data: seq<Block>)
    requires data != [] && ShowsAt(rd, at, FileImage(data, at)) && ExtentRoot(inode) == at
    requires at + Cost(|data|) < U64
    ensures Contents(rd, inode) == data
  {
    hide NodeBlock, ChainBlocks, Get64, Get32, FileImage;
    FileImageParts(rd, at, data);
    NodeFields(at + 1, at + 1 + |data|, |data|);
    OneExtentBlocks(rd, NodeBlock(at + 1, at + 1 + |data|, |data|), data, 0);
  }
}
