/** Directory blocks made from lists of names: the validator accepts them and finds
    exactly their inodes. */
module DirectoryBuild {
  import opened Bytes
  import opened Crc
  import opened Records
  import opened V = Validator

  /** A file of the directory: its inode number, its type and its name. */
  datatype Named = Named(ino: nat, kind: Byte, name: seq<Byte>)

  function Filler(n: nat): seq<Byte> {
    seq(n, _ => 0)
  }

  /** `AETHERFS_DIR_REC_LEN` */
  function RecordLength(len: nat): nat {
    (14 + len + 3) / 4 * 4
  }

  function HeaderFields(e: Named, rec: nat): seq<Field> {
    [Field(0, 8, e.ino), Field(8, 2, rec), Field(10, 2, |e.name|), Field(12, 1, e.kind)]
  }

  /** Header and name, with the checksum byte 0. */
  function Unsealed(e: Named, rec: nat): seq<Byte> {
    Write(Filler(14), HeaderFields(e, rec)) + e.name
  }

  /** The record in rec bytes: byte 13 is the low byte of the checksum. */
  function Record(e: Named, rec: nat): (r: seq<Byte>)
    requires 14 + |e.name| <= rec
    ensures |r| == rec
  {
    Unsealed(e, rec)[13 := DataChecksum(Unsealed(e, rec)) % 256] + Filler(rec - 14 - |e.name|)
  }

  function Length(es: seq<Named>): nat
    decreases |es|
  {
    if es == [] then 0 else RecordLength(|es[0].name|) + Length(es[1..])
  }

  /** The records end to end, the last one stretched to fill the room. */
  function Listing(es: seq<Named>, room: nat): (r: seq<Byte>)
    requires es != [] && Length(es) <= room
    ensures |r| == room
    decreases |es|
  {
    if |es| == 1 then
      assert Length(es) == RecordLength(|es[0].name|) + Length(es[1..]);
      Record(es[0], room)
    else
      Record(es[0], RecordLength(|es[0].name|)) + Listing(es[1..], room - RecordLength(|es[0].name|))
  }

  predicate IsDot(name: seq<Byte>) { name == [46] }

  predicate IsDotDot(name: seq<Byte>) { name == [46, 46] }

  /** Names have 1 to 255 bytes; the dot entries stand for the root, the others for an
      inode of the table. */
  predicate WellNamed(e: Named) {
    && 1 <= |e.name| <= 255
    && if IsDot(e.name) || IsDotDot(e.name) then e.ino == 16 else 16 <= e.ino < 16 + 32640
  }

  /** What the records name: every inode but those of the dot entries. */
  function Indices(es: seq<Named>): set<nat>
    requires forall i :: 0 <= i < |es| ==> WellNamed(es[i])
    decreases |es|
  {
    if es == [] then {}
    else if IsDot(es[0].name) || IsDotDot(es[0].name) then Indices(es[1..])
    else
      assert WellNamed(es[0]);
      var index: nat := es[0].ino - 16;
      Indices(es[1..]) + {index}
  }

  ghost predicate Distinct(es: seq<Named>) {
    forall i, j :: 0 <= i < j < |es| && !IsDot(es[i].name) && !IsDotDot(es[i].name) && !IsDot(es[j].name) && !IsDotDot(es[j].name) ==>
                     es[i].ino != es[j].ino
  }

  // ------------------------------------------------------------------------- one record

  lemma {:induction false} GetShift(a: seq<Byte>, b: seq<Byte>, shift: nat, off: nat, n: nat)
    requires off + n <= |b| && shift + off + n <= |a| && forall k :: off <= k < off + n ==> a[shift + k] == b[k]
    ensures Get(a, shift + off, n) == Get(b, off, n)
    decreases n
  {
    if n > 0 {
      GetShift(a, b, shift, off + 1, n - 1);
    }
  }

  /** dir holds the bytes bs at off. */
  ghost predicate HoldsEntry(dir: Block, off: nat, bs: seq<Byte>) {
    off + |bs| <= 4096 && dir[off..off + |bs|] == bs
  }

  lemma HoldsByte(dir: Block, off: nat, bs: seq<Byte>, k: nat)
    requires HoldsEntry(dir, off, bs) && k < |bs|
    ensures dir[off + k] == bs[k]
  {
    assert dir[off..off + |bs|][k] == dir[off + k];
  }

  lemma HoldsParts(dir: Block, off: nat, a: seq<Byte>, b: seq<Byte>)
    requires HoldsEntry(dir, off, a + b)
    ensures HoldsEntry(dir, off, a) && HoldsEntry(dir, off + |a|, b)
  {
    var all := dir[off..off + |a| + |b|];
    assert all[..|a|] == a && all[|a|..] == b;
    assert dir[off..off + |a|] == all[..|a|] && dir[off + |a|..off + |a| + |b|] == all[|a|..];
  }

  /** What a record reads back. */
  lemma RecordFieldsRead(dir: Block, off: nat, e: Named, rec: nat)
    requires WellNamed(e) && 14 + |e.name| <= rec <= 4096 && HoldsEntry(dir, off, Record(e, rec))
    ensures off + rec <= 4096
    ensures EntryIno(dir, off) == e.ino && EntryRecLen(dir, off) == rec && EntryNameLen(dir, off) == |e.name|
    ensures forall k :: 0 <= k < |e.name| ==> dir[off + 14 + k] == e.name[k]
  {
    hide Write, DataChecksum, Get, Put;
    var h := Write(Filler(14), HeaderFields(e, rec));
    var r := Record(e, rec);
    Pow256Values();
    WriteGets(Filler(14), HeaderFields(e, rec), 0);
    WriteGets(Filler(14), HeaderFields(e, rec), 1);
    WriteGets(Filler(14), HeaderFields(e, rec), 2);
    forall k | 0 <= k < 14 + |e.name| && k != 13
      ensures dir[off + k] == Unsealed(e, rec)[k]
    {
      HoldsByte(dir, off, r, k);
    }
    forall k | 0 <= k < 13
      ensures dir[off + k] == h[k]
    {
    }
    GetShift(dir, h, off, 0, 8);
    GetShift(dir, h, off, 8, 2);
    GetShift(dir, h, off, 10, 2);
    forall k | 0 <= k < |e.name|
      ensures dir[off + 14 + k] == e.name[k]
    {
      assert dir[off + (14 + k)] == Unsealed(e, rec)[14 + k];
    }
  }

  /** The checksum byte is the one the walk computes. */
  lemma RecordSealed(dir: Block, off: nat, e: Named, rec: nat)
    requires WellNamed(e) && 14 + |e.name| <= rec <= 4096 && HoldsEntry(dir, off, Record(e, rec))
    ensures off + 14 + |e.name| <= 4096 && dir[off + 13] == EntryChecksum(dir, off, |e.name|)
  {
    hide Write, DataChecksum;
    var u, r := Unsealed(e, rec), Record(e, rec);
    HeaderZero(e, rec);
    HoldsByte(dir, off, r, 13);
    HoldsParts(dir, off, u[13 := DataChecksum(u) % 256], Filler(rec - 14 - |e.name|));
    var bytes := dir[off..off + 14 + |e.name|];
    assert bytes == u[13 := DataChecksum(u) % 256];
    assert bytes[13 := 0] == u;
  }

  lemma HeaderZero(e: Named, rec: nat)
    ensures Unsealed(e, rec)[13] == 0
  {
    hide Put;
    WriteKeeps(Filler(14), HeaderFields(e, rec), 13);
  }

  /** What the walk makes of a record: found is what it has found so far. */
  function Found(s: DirScan, e: Named): DirScan
    requires WellNamed(e)
  {
    if IsDot(e.name) then s.(dot := true)
    else if IsDotDot(e.name) then s.(dotdot := true)
    else s.(refs := s.refs + {e.ino - 16})
  }

  lemma RecordScans(dir: Block, off: nat, e: Named, rec: nat, s: DirScan)
    requires WellNamed(e) && 14 + |e.name| <= rec <= 4096 && 4 * (rec / 4) == rec && HoldsEntry(dir, off, Record(e, rec))
    requires IsDot(e.name) || IsDotDot(e.name) || e.ino - 16 !in s.refs
    ensures off + rec <= 4096 && ScanEntry(dir, off, s) == Ok(Found(s, e))
  {
    hide Record, EntryIno, EntryRecLen, EntryNameLen, EntryChecksum;
    RecordFieldsRead(dir, off, e, rec);
    RecordSealed(dir, off, e, rec);
    NameBytes(dir, off, e);
  }

  lemma NameBytes(dir: Block, off: nat, e: Named)
    requires 1 <= |e.name| && off + 14 + |e.name| <= 4096 && forall k :: 0 <= k < |e.name| ==> dir[off + 14 + k] == e.name[k]
    ensures IsDot(e.name) <==> |e.name| == 1 && dir[off + 14] == 46
    ensures |e.name| == 2 ==> (IsDotDot(e.name) <==> dir[off + 14] == 46 && dir[off + 15] == 46)
  {
    assert dir[off + 14 + 0] == e.name[0];
    if |e.name| == 2 {
      assert dir[off + 14 + 1] == e.name[1];
    }
  }

  // ---------------------------------------------------------------------------- the walk

  function FoundAll(s: DirScan, es: seq<Named>): DirScan
    requires forall i :: 0 <= i < |es| ==> WellNamed(es[i])
    decreases |es|
  {
    if es == [] then s else FoundAll(Found(s, es[0]), es[1..])
  }

  lemma LengthMultiple(len: nat)
    ensures 14 + len <= RecordLength(len) <= 17 + len && 4 * (RecordLength(len) / 4) == RecordLength(len)
  {
  }

  lemma WalkTurn(dir: Block, off: nat, s: DirScan)
    requires off + 12 <= 4096 && ScanEntry(dir, off, s).Ok?
    ensures off + EntryRecLen(dir, off) <= 4096
    ensures ScanDir(dir, off, s) == ScanDir(dir, off + EntryRecLen(dir, off), ScanEntry(dir, off, s).value)
  {
    hide EntryIno, EntryNameLen, EntryRecLen, EntryChecksum;
  }

  /** None of the records names an inode that is already found. */
  ghost predicate NewTo(s: DirScan, es: seq<Named>)
    requires forall i :: 0 <= i < |es| ==> WellNamed(es[i])
  {
    forall i :: 0 <= i < |es| ==> IsDot(es[i].name) || IsDotDot(es[i].name) || es[i].ino - 16 !in s.refs
  }

  lemma NewTail(s: DirScan, es: seq<Named>)
    requires es != [] && (forall i :: 0 <= i < |es| ==> WellNamed(es[i])) && NewTo(s, es) && Distinct(es)
    ensures forall i :: 0 <= i < |es[1..]| ==> WellNamed(es[1..][i])
    ensures NewTo(Found(s, es[0]), es[1..]) && Distinct(es[1..])
  {
    var rest := es[1..];
    forall i | 0 <= i < |rest|
      ensures WellNamed(rest[i]) && rest[i] == es[i + 1]
    {
    }
    forall i | 0 <= i < |rest|
      ensures IsDot(rest[i].name) || IsDotDot(rest[i].name) || rest[i].ino - 16 !in Found(s, es[0]).refs
    {
      assert rest[i] == es[i + 1];
    }
  }

  lemma {:induction false} ListingScans(dir: Block, off: nat, es: seq<Named>, s: DirScan)
    requires es != [] && (forall i :: 0 <= i < |es| ==> WellNamed(es[i])) && NewTo(s, es) && Distinct(es)
    requires off <= 4096 && 4 * (off / 4) == off && Length(es) <= 4096 - off && HoldsEntry(dir, off, Listing(es, 4096 - off))
    ensures FoundAll(s, es).dot && FoundAll(s, es).dotdot ==> ScanDir(dir, off, s) == Ok(FoundAll(s, es))
    decreases |es|
  {
    hide Record, ScanEntry, EntryRecLen, ScanDir, WellNamed, Found, RecordLength;
    var e := es[0];
    LengthMultiple(|e.name|);
    var rec := if |es| == 1 then 4096 - off else RecordLength(|e.name|);
    NewTail(s, es);
    LengthTail(es, 4096 - off);
    if |es| == 1 {
      RecordScans(dir, off, e, rec, s);
      RecordFieldsRead(dir, off, e, rec);
      WalkTurn(dir, off, s);
      WalkDone(dir, Found(s, e));
      assert FoundAll(s, es) == FoundAll(Found(s, e), []) == Found(s, e);
    } else {
      HoldsParts(dir, off, Record(e, rec), Listing(es[1..], 4096 - off - rec));
      RecordScans(dir, off, e, rec, s);
      RecordFieldsRead(dir, off, e, rec);
      WalkTurn(dir, off, s);
      ListingScans(dir, off + rec, es[1..], Found(s, e));
    }
  }

  lemma LengthTail(es: seq<Named>, room: nat)
    requires es != [] && Length(es) <= room
    ensures RecordLength(|es[0].name|) <= room && Length(es[1..]) <= room - RecordLength(|es[0].name|)
  {
  }

  lemma WalkDone(dir: Block, s: DirScan)
    ensures s.dot && s.dotdot ==> ScanDir(dir, 4096, s) == Ok(s)
  {
  }

  // ------------------------------------------------------------------------- the theorem

  lemma {:induction false} FoundSplits(s: DirScan, es: seq<Named>)
    requires forall i :: 0 <= i < |es| ==> WellNamed(es[i])
    ensures FoundAll(s, es) == DirScan(s.refs + Indices(es), s.dot || HasName(es, [46]), s.dotdot || HasName(es, [46, 46]))
    decreases |es|
  {
    if es != [] {
      assert forall i :: 0 <= i < |es[1..]| ==> es[1..][i] == es[i + 1];
      FoundSplits(Found(s, es[0]), es[1..]);
      HasNameCons(es, [46]);
      HasNameCons(es, [46, 46]);
    }
  }

  ghost predicate HasName(es: seq<Named>, name: seq<Byte>) {
    exists i :: 0 <= i < |es| && es[i].name == name
  }

  lemma HasNameCons(es: seq<Named>, name: seq<Byte>)
    requires es != []
    ensures HasName(es, name) <==> es[0].name == name || HasName(es[1..], name)
  {
    if HasName(es, name) && es[0].name != name {
      var i :| 0 <= i < |es| && es[i].name == name;
      assert es[1..][i - 1] == es[i];
    }
    if HasName(es[1..], name) {
      var i :| 0 <= i < |es[1..]| && es[1..][i].name == name;
      assert es[i + 1] == es[1..][i];
    }
  }

  /** Every list of names that fits the block, with both dot entries and no inode named
      twice, makes a directory the walk accepts, and it finds exactly their inodes. */
  lemma DirectoryScans(es: seq<Named>)
    requires (forall i :: 0 <= i < |es| ==> WellNamed(es[i])) && Distinct(es) && Length(es) <= 4096
    requires HasName(es, [46]) && HasName(es, [46, 46])
    ensures ScanDir(Listing(es, 4096), 0, DirScan({}, false, false)) == Ok(DirScan(Indices(es), true, true))
  {
    hide WellNamed, Listing, ScanDir, Indices, HasName;
    NoName([46]);
    var dir: Block := Listing(es, 4096);
    assert dir[0..0 + 4096] == dir;
    FoundSplits(DirScan({}, false, false), es);
    assert {} + Indices(es) == Indices(es);
    ListingScans(dir, 0, es, DirScan({}, false, false));
  }

  lemma NoName(name: seq<Byte>)
    ensures !HasName([], name)
  {
  }

  /** The inodes are those of the entries that are no dot entries. */
  lemma {:induction false} IndicesExact(es: seq<Named>, n: nat)
    requires forall i :: 0 <= i < |es| ==> WellNamed(es[i])
    ensures n in Indices(es) <==> exists i :: 0 <= i < |es| && !IsDot(es[i].name) && !IsDotDot(es[i].name) && es[i].ino == 16 + n
    decreases |es|
  {
    if es != [] {
      var rest := es[1..];
      assert forall i :: 0 <= i < |rest| ==> rest[i] == es[i + 1];
      IndicesExact(rest, n);
      if i: nat :| i < |es| && !IsDot(es[i].name) && !IsDotDot(es[i].name) && es[i].ino == 16 + n {
        if i > 0 {
          assert rest[i - 1] == es[i];
        }
      }
    }
  }
}
