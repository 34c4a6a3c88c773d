/** Block reads and writes of an opened pool, with member accesses that may
    fail, and the open pool they change in place. */
module PoolBlocks {
  import opened Bytes
  import opened Geometry
  import opened PoolMap

  /** The contents of the members: disks[m][c] is the c-th block of member m. */
  type Disks = seq<seq<Block>>

  /** What goes wrong during one write: cells that cannot be read, and cells whose
      write fails, with what the failed write leaves there. */
  datatype Faults = Faults(bad: set<(nat, nat)>, torn: map<(nat, nat), Block>)

  datatype Outcome = Outcome(disks: Disks, rc: Rc)

  predicate Attached(p: Pool, d: Disks) {
    Opened(p) && |d| == p.memberCount
  }

  // ------------------------------------------------------------------ member access

  /** Block numbers below this one have byte offsets below 2^64. */
  const ADDRESSABLE: nat := 0x10_0000_0000_0000

  /** The block of the device that a member access reaches: the byte offset is a
      64-bit product, and an offset that is negative as an `off_t` is refused. */
  function CellOf(mb: nat): Result<nat> {
    var offset := mb * 4096 % U64;
    if offset >= U64 / 2 then Err(EINVAL) else Ok(offset / 4096)
  }

  lemma CellOfExact(mb: nat)
    ensures CellOf(mb) == if mb % ADDRESSABLE < ADDRESSABLE / 2 then Ok(mb % ADDRESSABLE) else Err(EINVAL)
  {
    var q, r := mb / ADDRESSABLE, mb % ADDRESSABLE;
    assert mb * 4096 == q * U64 + r * 4096;
    DivModUnique(q, r * 4096, U64);
  }

  function MemberRead(p: Pool, d: Disks, bad: set<(nat, nat)>, m: nat, mb: nat): Result<Block>
    requires Attached(p, d)
  {
    if m >= p.memberCount then Err(EINVAL) else
    var cell := CellOf(mb);
    if cell.Err? then Err(cell.error)
    else if cell.value >= |d[m]| || (m, cell.value) in bad then Err(EIO)
    else Ok(d[m][cell.value])
  }

  /** The members with v in cell c of member m. */
  function Store(d: Disks, m: nat, c: nat, v: Block): (r: Disks)
    requires m < |d| && c < |d[m]|
    ensures |r| == |d|
  {
    var disk: seq<Block> := d[m];
    var disk': seq<Block> := disk[c := v];
    d[m := disk']
  }

  function MemberWrite(p: Pool, d: Disks, torn: map<(nat, nat), Block>, m: nat, mb: nat, buf: Block): (r: Outcome)
    requires Attached(p, d)
    ensures Attached(p, r.disks)
  {
    if m >= p.memberCount then Outcome(d, Neg(EINVAL)) else
    var cell := CellOf(mb);
    if cell.Err? then Outcome(d, Neg(cell.error))
    else if cell.value >= |d[m]| then Outcome(d, Neg(ENOSPC))
    else if (m, cell.value) in torn then Outcome(Store(d, m, cell.value, torn[(m, cell.value)]), Neg(EIO))
    else Outcome(Store(d, m, cell.value, buf), Zero)
  }

  /** What an access to a member answers: numbers of members that do not exist and
      offsets beyond 2^63 are -EINVAL, blocks behind the end -EIO for a read and -ENOSPC
      for a write, failing cells -EIO; only the last changes anything. */
  lemma AccessAnswers(p: Pool, d: Disks, io: Faults, m: nat, mb: nat, buf: Block)
    requires Attached(p, d)
    ensures var r, w, c := MemberRead(p, d, io.bad, m, mb), MemberWrite(p, d, io.torn, m, mb, buf), mb % ADDRESSABLE;
            if m >= p.memberCount || c >= ADDRESSABLE / 2 then r == Err(EINVAL) && w == Outcome(d, Neg(EINVAL))
            else if c >= |d[m]| then r == Err(EIO) && w == Outcome(d, Neg(ENOSPC))
            else
              && r == (if (m, c) in io.bad then Err(EIO) else Ok(d[m][c]))
              && w.rc == (if (m, c) in io.torn then Neg(EIO) else Zero)
              && |w.disks[m]| == |d[m]| && w.disks[m][c] == (if (m, c) in io.torn then io.torn[(m, c)] else buf)
              && forall m', c' :: 0 <= m' < |d| && 0 <= c' < |d[m']| && (m', c') != (m, c) ==>
                                    |w.disks[m']| == |d[m']| && w.disks[m'][c'] == d[m'][c']
  {
    hide CellOf;
    CellOfExact(mb);
  }

  // ------------------------------------------------------------------- block access

  /** The first readable replica among ms[k..]. */
  function ReadFirst(p: Pool, d: Disks, bad: set<(nat, nat)>, ms: seq<nat>, k: nat, b: nat): Result<Block>
    requires Attached(p, d) && k <= |ms|
    decreases |ms| - k
  {
    if k == |ms| then Err(EIO) else
    var r := MemberRead(p, d, bad, ms[k], b);
    if r.Ok? then r else ReadFirst(p, d, bad, ms, k + 1, b)
  }

  function ReadBlock(p: Pool, d: Disks, bad: set<(nat, nat)>, b: nat): Result<Block>
    requires Attached(p, d)
  {
    if b < DATA_START then ReadFirst(p, d, bad, BootstrapMembers(p, b), 0, b) else
    var m := MapData(p, b);
    if m.Err? then Err(m.error) else MemberRead(p, d, bad, m.value.member, m.value.block)
  }

  /** Writes buf to ms[k..] in turn, stopping at the first failure. */
  function WriteReplicas(p: Pool, d: Disks, torn: map<(nat, nat), Block>, ms: seq<nat>, k: nat, mb: nat, buf: Block): (r: Outcome)
    requires Attached(p, d) && k <= |ms|
    ensures Attached(p, r.disks)
    decreases |ms| - k
  {
    if k == |ms| then Outcome(d, Zero) else
    var w := MemberWrite(p, d, torn, ms[k], mb, buf);
    if w.rc.Neg? then w else WriteReplicas(p, w.disks, torn, ms, k + 1, mb, buf)
  }

  /** The read-modify-write of a parity row: parity first, then data. */
  function WriteParity(p: Pool, d: Disks, io: Faults, m: Mapping, buf: Block): (r: Outcome)
    requires Attached(p, d)
    ensures Attached(p, r.disks)
  {
    var oldData := MemberRead(p, d, io.bad, m.member, m.block);
    if oldData.Err? then Outcome(d, Neg(oldData.error)) else
    var oldParity := MemberRead(p, d, io.bad, m.parity, m.block);
    if oldParity.Err? then Outcome(d, Neg(oldParity.error)) else
    var newParity := XorBlock(XorBlock(oldParity.value, oldData.value), buf);
    var w := MemberWrite(p, d, io.torn, m.parity, m.block, newParity);
    if w.rc.Neg? then w else MemberWrite(p, w.disks, io.torn, m.member, m.block, buf)
  }

  function WriteBlock(p: Pool, d: Disks, writable: bool, io: Faults, b: nat, buf: Block): (r: Outcome)
    requires Attached(p, d)
    ensures Attached(p, r.disks)
  {
    if !writable then Outcome(d, Neg(EBADF))
    else if b < DATA_START then
      var ms := BootstrapMembers(p, b);
      if ms == [] then Outcome(d, Neg(EINVAL)) else WriteReplicas(p, d, io.torn, ms, 0, b, buf)
    else
      var m := MapData(p, b);
      if m.Err? then Outcome(d, Neg(m.error))
      else if p.profile == PROFILE_MIRROR then WriteReplicas(p, d, io.torn, DataMembers(p), 0, m.value.block, buf)
      else if p.profile == PROFILE_PARITY then WriteParity(p, d, io, m.value, buf)
      else MemberWrite(p, d, io.torn, m.value.member, m.value.block, buf)
  }

  /** `struct aetherfs_image` as an open pool: members written in place. */
  class PoolImage {
    const pool: Pool
    const writable: bool
    var disks: Disks

    ghost predicate Valid()
      reads this
    {
      Attached(pool, disks)
    }

    constructor (pool: Pool, disks: Disks, writable: bool)
      requires Attached(pool, disks)
      ensures Valid() && this.pool == pool && this.disks == disks && this.writable == writable
    {
      this.pool := pool;
      this.disks := disks;
      this.writable := writable;
    }

    /** `aetherfs_image_read_block` */
    method Read(block: nat, bad: set<(nat, nat)>) returns (r: Result<Block>)
      requires Valid()
      ensures r == ReadBlock(pool, disks, bad, block)
    {
      if block < DATA_START {
        var ms := BootstrapMembers(pool, block);
        var ordinal := 0;
        while ordinal < |ms|
          invariant ordinal <= |ms|
          invariant ReadBlock(pool, disks, bad, block) == ReadFirst(pool, disks, bad, ms, ordinal, block)
        {
          r := MemberRead(pool, disks, bad, ms[ordinal], block);
          if r.Ok? {
            return;
          }
          ordinal := ordinal + 1;
        }
        return Err(EIO);
      }
      var mapping := MapData(pool, block);
      if mapping.Err? {
        return Err(mapping.error);
      }
      r := MemberRead(pool, disks, bad, mapping.value.member, mapping.value.block);
    }

    method WriteMember(m: nat, mb: nat, buf: Block, torn: map<(nat, nat), Block>) returns (rc: Rc)
      requires Valid()
      modifies this`disks
      ensures Valid()
      ensures Outcome(disks, rc) == MemberWrite(pool, old(disks), torn, m, mb, buf)
    {
      var w := MemberWrite(pool, disks, torn, m, mb, buf);
      disks := w.disks;
      rc := w.rc;
    }

    method WriteMembers(ms: seq<nat>, mb: nat, buf: Block, torn: map<(nat, nat), Block>) returns (rc: Rc)
      requires Valid()
      modifies this`disks
      ensures Valid()
      ensures Outcome(disks, rc) == WriteReplicas(pool, old(disks), torn, ms, 0, mb, buf)
    {
      var ordinal := 0;
      while ordinal < |ms|
        invariant ordinal <= |ms| && Valid()
        invariant WriteReplicas(pool, old(disks), torn, ms, 0, mb, buf) ==
                  WriteReplicas(pool, disks, torn, ms, ordinal, mb, buf)
      {
        rc := WriteMember(ms[ordinal], mb, buf, torn);
        if rc.Neg? {
          return;
        }
        ordinal := ordinal + 1;
      }
      rc := Zero;
    }

    /** `aetherfs_image_write_block`: every completed or failed call leaves the
        members as `WriteBlock` says. */
    method Write(block: nat, buf: Block, io: Faults) returns (rc: Rc)
      requires Valid()
      modifies this`disks
      ensures Valid()
      ensures Outcome(disks, rc) == WriteBlock(pool, old(disks), writable, io, block, buf)
    {
      if !writable {
        return Neg(EBADF);
      }
      if block < DATA_START {
        var ms := BootstrapMembers(pool, block);
        if ms == [] {
          return Neg(EINVAL);
        }
        rc := WriteMembers(ms, block, buf, io.torn);
        return;
      }
      var mapping := MapData(pool, block);
      if mapping.Err? {
        return Neg(mapping.error);
      }
      var m := mapping.value;
      if pool.profile == PROFILE_MIRROR {
        rc := WriteMembers(DataMembers(pool), m.block, buf, io.torn);
      } else if pool.profile == PROFILE_PARITY {
        var oldData := MemberRead(pool, disks, io.bad, m.member, m.block);
        if oldData.Err? {
          return Neg(oldData.error);
        }
        var oldParity := MemberRead(pool, disks, io.bad, m.parity, m.block);
        if oldParity.Err? {
          return Neg(oldParity.error);
        }
        var newParity := NewParity(oldParity.value, oldData.value, buf);
        rc := WriteMember(m.parity, m.block, newParity, io.torn);
        if rc.Neg? {
          return;
        }
        rc := WriteMember(m.member, m.block, buf, io.torn);
      } else {
        rc := WriteMember(m.member, m.block, buf, io.torn);
      }
    }
  }

  /** The byte loop of the parity update. */
  method NewParity(oldParity: Block, oldData: Block, buf: Block) returns (r: Block)
    ensures r == XorBlock(XorBlock(oldParity, oldData), buf)
  {
    var bytes: seq<Byte> := [];
    for index := 0 to 4096
      invariant |bytes| == index
      invariant forall i :: 0 <= i < index ==> bytes[i] == XorBlock(XorBlock(oldParity, oldData), buf)[i]
    {
      bytes := bytes + [XorByte(XorByte(oldParity[index], oldData[index]), buf[index])];
    }
    assert bytes == XorBlock(XorBlock(oldParity, oldData), buf);
    r := bytes;
  }
}
