/** `aetherfs_run_rebalance`: every file of a single-device image rewritten into
    one contiguous extent, in a fresh copy of the device. */
module Rebalance {
  import opened Bytes
  import opened Crc
  import opened Layout
  import opened V = Validator
  import opened Packing
  import opened SpaceBound
  import opened PoolMap
  import opened PoolBlocks
  import opened PoolOpen
  import opened ImageCheck
  import opened SingleDevice
  import R = Redundancy

  /** Blocks at .. at + len - 1 can be read and written. */
  ghost predicate Region(p: Pool, n: nat, at: nat, len: nat)
    requires PoolMap.Opened(p)
  {
    at + len <= n && forall b :: at <= b < at + len ==> Reaches(p, n, b)
  }

  /** `aetherfs_image_write_block` on the target. */
  method WriteTo(p: Pool, t: Device, b: nat, buf: Block) returns (r: Result<Device>)
    requires OnDevice(p, t)
    ensures r.Ok? ==> |r.value| == |t|
    ensures Reaches(p, |t|, b) ==> b < |t| && r == Ok(SetBlock(t, b, buf))
  {
    hide WriteBlock, Reaches;
    var w := WriteBlock(p, [t], true, Faults({}, map[]), b, buf);
    R.WriteKeepsSize(p, [t], true, Faults({}, map[]), b, buf, 0);
    if Reaches(p, |t|, b) {
      SingleWrites(p, t, b, buf);
    }
    r := if w.rc.Neg? then Err(w.rc.error) else Ok(w.disks[0]);
  }

  // --------------------------------------------------------------------- copying data

  ghost predicate AllExtentsRead(rd: Reader, node: Block)
    requires NodeCount(node) <= EXTENTS_MAX
  {
    forall e :: 0 <= e < NodeCount(node) ==> ExtentRead(rd, node, e)
  }

  lemma OverlayStep(t: Device, at: nat, b: Block, rest: seq<Block>)
    requires at + 1 + |rest| <= |t|
    ensures Overlay(t, at, [b] + rest) == Overlay(SetBlock(t, at, b), at + 1, rest)
  {
    assert ([b] + rest)[1..] == rest;
  }

  /** `aetherfs_copy_file_data` */
  method CopyFileData(rd: Reader, node: Block, p: Pool, target: Device, dst: nat) returns (r: Result<Device>)
    requires OnDevice(p, target) && NodeCount(node) <= EXTENTS_MAX
    ensures r.Ok? ==> |r.value| == |target|
    ensures AllExtentsRead(rd, node) && Region(p, |target|, dst, |FileBlocks(rd, node, 0, 0)|) ==>
              r == Ok(Overlay(target, dst, FileBlocks(rd, node, 0, 0)))
  {
    hide NodeCount, ExtentStart, ExtentLen, Reaches, PoolMap.Opened;
    ghost var data := FileBlocks(rd, node, 0, 0);
    ghost var good := AllExtentsRead(rd, node) && Region(p, |target|, dst, |data|);
    var t, at, e := target, dst, 0;
    while e < NodeCount(node)
      invariant e <= NodeCount(node) && |t| == |target| && dst <= at && OnDevice(p, t)
      invariant good ==> at + |FileBlocks(rd, node, e, 0)| == dst + |data|
      invariant good ==> Overlay(t, at, FileBlocks(rd, node, e, 0)) == Overlay(target, dst, data)
    {
      var k := 0;
      while k < ExtentLen(node, e)
        invariant k <= ExtentLen(node, e) && |t| == |target| && dst <= at && OnDevice(p, t)
        invariant good ==> at + |FileBlocks(rd, node, e, k)| == dst + |data|
        invariant good ==> Overlay(t, at, FileBlocks(rd, node, e, k)) == Overlay(target, dst, data)
      {
        var block := rd(ExtentStart(node, e) + k);
        if good {
          assert ExtentRead(rd, node, e);
          assert FileBlocks(rd, node, e, k) == [block.value] + FileBlocks(rd, node, e, k + 1);
          OverlayStep(t, at, block.value, FileBlocks(rd, node, e, k + 1));
        }
        if block.Err? {
          return Err(block.error);
        }
        var w := WriteTo(p, t, at, block.value);
        if w.Err? {
          return Err(w.error);
        }
        OnDeviceKept(p, t, w.value);
        t, at, k := w.value, at + 1, k + 1;
      }
      assert FileBlocks(rd, node, e, k) == FileBlocks(rd, node, e + 1, 0);
      e := e + 1;
    }
    r := Ok(t);
  }

  // ------------------------------------------------------------------ checksum chains

  /** The data of a chain under construction, read back from the target. */
  method SumChunk(p: Pool, t: Device, first: nat, entries: nat) returns (r: Result<Block>)
    requires OnDevice(p, t) && entries <= SUMS_PER_BLOCK
    ensures Region(p, |t|, first, entries) ==> r == Ok(PutSums(t[first..first + entries], entries))
  {
    hide Reaches, PoolMap.Opened, DataChecksum, PutBlock;
    ghost var good := Region(p, |t|, first, entries);
    var sums := ZeroBlock();
    for index := 0 to entries
      invariant good ==> sums == PutSums(t[first..first + entries], index)
    {
      var block := ReadBlock(p, [t], {}, first + index);
      if good {
        assert Reaches(p, |t|, first + index);
        SingleReads(p, t, first + index);
        assert t[first..first + entries][index] == t[first + index];
      }
      if block.Err? {
        return Err(block.error);
      }
      sums := PutBlock(sums, 16 + 4 * index, 4, DataChecksum(block.value));
    }
    r := Ok(sums);
  }

  /** `aetherfs_write_checksum_chain` */
  method WriteChecksumChain(p: Pool, target: Device, dataStart: nat, dataBlocks: nat, csumStart: nat) returns (r: Result<Device>)
    requires OnDevice(p, target)
    ensures r.Ok? ==> |r.value| == |target|
    ensures csumStart == dataStart + dataBlocks && Region(p, |target|, dataStart, dataBlocks)
            && Region(p, |target|, csumStart, SumsNeeded(dataBlocks)) ==>
              && |ChainBlocks(target[dataStart..csumStart], csumStart)| == SumsNeeded(dataBlocks)
              && r == Ok(Overlay(target, csumStart, ChainBlocks(target[dataStart..csumStart], csumStart)))
  {
    hide Reaches, PoolMap.Opened, FinishSums, PutSums, ChainState, ChainBlocks, Overlay;
    ghost var good := csumStart == dataStart + dataBlocks && Region(p, |target|, dataStart, dataBlocks)
                      && Region(p, |target|, csumStart, SumsNeeded(dataBlocks));
    ghost var data := if good then target[dataStart..csumStart] else [];
    if good {
      ChainStateStart(target, data, dataStart, csumStart);
    }
    ghost var done := 0;
    var t, remaining: nat, dataBlock: nat, csumBlock: nat := target, dataBlocks, dataStart, csumStart;
    while remaining > 0
      invariant |t| == |target| && OnDevice(p, t)
      invariant done + remaining == dataBlocks
      invariant good ==> ChainState(target, t, data, dataStart, csumStart, done, dataBlock, csumBlock)
      decreases remaining
    {
      var entries := if remaining > SUMS_PER_BLOCK then SUMS_PER_BLOCK else remaining;
      var sums := SumChunk(p, t, dataBlock, entries);
      if good {
        ChainStateChunk(target, t, data, dataStart, csumStart, done, dataBlock, csumBlock, entries);
        assert Region(p, |t|, dataBlock, entries);
      }
      if sums.Err? {
        return Err(sums.error);
      }
      var block := FinishSums(sums.value, entries, if remaining > entries then csumBlock + 1 else 0);
      var w := WriteTo(p, t, csumBlock, block);
      if good {
        assert Reaches(p, |t|, csumBlock);
        ChainStateStep(target, t, data, dataStart, csumStart, done, dataBlock, csumBlock, entries, block);
      }
      if w.Err? {
        return Err(w.error);
      }
      OnDeviceKept(p, t, w.value);
      done := done + entries;
      t, remaining, dataBlock, csumBlock := w.value, remaining - entries, dataBlock + entries, csumBlock + 1;
    }
    if good {
      ChainStateEnd(target, t, data, dataStart, csumStart, dataBlock, csumBlock);
    }
    r := Ok(t);
  }

  /** What is left to write completes the chain, and the data is still in place. */
  ghost predicate ChainState(target: Device, t: Device, data: seq<Block>, dataStart: nat, csumStart: nat,
                             done: nat, dataBlock: nat, csumBlock: nat)
  {
    && |t| == |target| && csumStart == dataStart + |data| <= |t| && done <= |data|
    && dataBlock == dataStart + done && csumStart <= csumBlock
    && t[dataStart..csumStart] == data
    && |ChainBlocks(data, csumStart)| == SumsNeeded(|data|) && csumStart + SumsNeeded(|data|) <= |t|
    && csumBlock + |ChainBlocks(data[done..], csumBlock)| == csumStart + SumsNeeded(|data|)
    && Overlay(t, csumBlock, ChainBlocks(data[done..], csumBlock)) == Overlay(target, csumStart, ChainBlocks(data, csumStart))
  }

  lemma ChainStateStart(target: Device, data: seq<Block>, dataStart: nat, csumStart: nat)
    requires csumStart == dataStart + |data| && csumStart + SumsNeeded(|data|) <= |target| && data == target[dataStart..csumStart]
    ensures |ChainBlocks(data, csumStart)| == SumsNeeded(|data|)
    ensures ChainState(target, target, data, dataStart, csumStart, 0, dataStart, csumStart)
  {
    hide Overlay;
    ChainBlocksLength(data, csumStart);
    assert data[0..] == data;
  }

  lemma ChainStateEnd(target: Device, t: Device, data: seq<Block>, dataStart: nat, csumStart: nat, dataBlock: nat, csumBlock: nat)
    requires ChainState(target, t, data, dataStart, csumStart, |data|, dataBlock, csumBlock)
    ensures t == Overlay(target, csumStart, ChainBlocks(data, csumStart))
  {
    assert data[|data|..] == [];
  }

  lemma ChainStateChunk(target: Device, t: Device, data: seq<Block>, dataStart: nat, csumStart: nat,
                        done: nat, dataBlock: nat, csumBlock: nat, entries: nat)
    requires ChainState(target, t, data, dataStart, csumStart, done, dataBlock, csumBlock)
    requires done < |data| && entries == Chunk(data[done..])
    ensures dataStart <= dataBlock && dataBlock + entries <= csumStart <= csumBlock < csumStart + SumsNeeded(|data|)
    ensures t[dataBlock..dataBlock + entries] == data[done..][..entries]
    ensures ChainBlocks(data[done..], csumBlock) ==
            [SumBlock(data[done..][..entries], if |data| - done > entries then csumBlock + 1 else 0)]
            + ChainBlocks(data[done + entries..], csumBlock + 1)
  {
    hide SumBlock, Overlay;
    assert data[done..][entries..] == data[done + entries..];
    SliceOfSlice(t, dataStart, csumStart, done, done + entries);
    assert data[done..][..entries] == data[done..done + entries];
  }

  lemma SliceOfSlice(t: Device, a: nat, b: nat, c: nat, d: nat)
    requires a <= b <= |t| && c <= d <= b - a
    ensures t[a + c..a + d] == t[a..b][c..d]
  {
    var l, r := t[a + c..a + d], t[a..b][c..d];
    forall i | 0 <= i < |l|
      ensures l[i] == r[i]
    {
      assert l[i] == t[a + c + i] && r[i] == t[a..b][c + i];
    }
  }

  lemma ChainStateStep(target: Device, t: Device, data: seq<Block>, dataStart: nat, csumStart: nat,
                       done: nat, dataBlock: nat, csumBlock: nat, entries: nat, block: Block)
    requires ChainState(target, t, data, dataStart, csumStart, done, dataBlock, csumBlock)
    requires done < |data| && entries == Chunk(data[done..])
    requires block == SumBlock(data[done..][..entries], if |data| - done > entries then csumBlock + 1 else 0)
    ensures csumBlock < |t|
    ensures ChainState(target, SetBlock(t, csumBlock, block), data, dataStart, csumStart,
                       done + entries, dataBlock + entries, csumBlock + 1)
  {
    hide SumBlock;
    ChainStateChunk(target, t, data, dataStart, csumStart, done, dataBlock, csumBlock, entries);
    OverlayStep(t, csumBlock, block, ChainBlocks(data[done + entries..], csumBlock + 1));
    assert SetBlock(t, csumBlock, block)[dataStart..csumStart] == t[dataStart..csumStart];
  }
}
