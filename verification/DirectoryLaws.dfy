/** What the directory walk of the validator accepts, said without the walk. */
module DirectoryLaws {
  import opened Bytes
  import opened Layout
  import opened Validator

  /** What the record at o stands for. */
  datatype Entry = Unused | Dot | DotDot | Names(index: nat) | Stray

  function EntryOf(dir: Block, o: nat): Entry {
    if o + 12 > 4096 || EntryIno(dir, o) == 0 || o + DIR_BASE + EntryNameLen(dir, o) > 4096 then Unused
    else if EntryNameLen(dir, o) == 1 && dir[o + 14] == DOT then Dot
    else if EntryNameLen(dir, o) == 2 && dir[o + 14] == DOT && dir[o + 15] == DOT then DotDot
    else if EntryIno(dir, o) >= ROOT_INO then Names(EntryIno(dir, o) - ROOT_INO)
    else Stray
  }

  /** The record has a length that is a positive multiple of 4 and ends in the block,
      and a name of at most 255 bytes that ends in the record; names of records too
      short for a header are not bounded by them. */
  predicate RecordGood(dir: Block, o: nat)
    requires o + 12 <= 4096
  {
    var rec, name := Get16(dir, o + 8), Get16(dir, o + 10);
    0 < rec && 4 * (rec / 4) == rec && o + rec <= 4096 && name <= 255 && (rec < 14 || 14 + name <= rec)
  }

  /** The record is well formed; if it is in use, its checksum matches and it refers
      to the root (dot entries) or to an inode of the table. */
  predicate EntryGood(dir: Block, o: nat)
    requires o + 12 <= 4096
  {
    && RecordGood(dir, o)
    && (EntryIno(dir, o) != 0 ==>
          && o + DIR_BASE + EntryNameLen(dir, o) <= 4096
          && dir[o + 13] == EntryChecksum(dir, o, EntryNameLen(dir, o))
          && match EntryOf(dir, o)
             case Dot => EntryIno(dir, o) == ROOT_INO
             case DotDot => EntryIno(dir, o) == ROOT_INO
             case Names(n) => n < MAX_INODES
             case _ => false)
  }

  function After(offs: seq<nat>, k: nat): nat {
    if k + 1 < |offs| then offs[k + 1] else 4096
  }

  /** The good records offs follow each other from off to the end of the block. */
  ghost predicate Walk(dir: Block, off: nat, offs: seq<nat>) {
    && off == (if offs == [] then 4096 else offs[0])
    && forall k :: 0 <= k < |offs| ==>
                     offs[k] + 12 <= 4096 && EntryGood(dir, offs[k]) && offs[k] + EntryRecLen(dir, offs[k]) == After(offs, k)
  }

  ghost predicate Lists(dir: Block, offs: seq<nat>, e: Entry) {
    exists k :: 0 <= k < |offs| && EntryOf(dir, offs[k]) == e
  }

  ghost predicate NoneTwice(dir: Block, offs: seq<nat>) {
    forall j, k :: 0 <= j < k < |offs| && EntryOf(dir, offs[j]).Names? ==> EntryOf(dir, offs[j]) != EntryOf(dir, offs[k])
  }

  // ------------------------------------------------------------------------------ one record

  /** What one accepted record does to the scan. */
  ghost predicate Takes(dir: Block, off: nat, s: DirScan, r: DirScan) {
    var e := EntryOf(dir, off);
    && r.dot == (s.dot || e == Dot) && r.dotdot == (s.dotdot || e == DotDot)
    && (e.Names? ==> e.index !in s.refs) && r.refs == (if e.Names? then s.refs + {e.index} else s.refs)
  }

  lemma EntryMeans(dir: Block, off: nat, s: DirScan)
    requires off + 12 <= 4096
    ensures ScanEntry(dir, off, s).Ok? <==> EntryGood(dir, off) && (EntryOf(dir, off).Names? ==> EntryOf(dir, off).index !in s.refs)
    ensures ScanEntry(dir, off, s).Ok? ==> Takes(dir, off, s, ScanEntry(dir, off, s).value)
  {
    hide EntryIno, EntryChecksum, Get16;
  }

  /** A malformed record stops the walk, whatever it has found. */
  lemma MalformedRefused(dir: Block, off: nat, s: DirScan)
    requires off + 12 <= 4096 && !RecordGood(dir, off)
    ensures ScanEntry(dir, off, s) == Err(EINVAL) && ScanDir(dir, off, s) == Err(EINVAL)
  {
    hide EntryIno, EntryChecksum, Get16;
  }

  /** What a refused record of the right shape answers: -EILSEQ for a wrong checksum, then
      -EEXIST for an inode named before and -EINVAL for one that does not fit. */
  lemma EntryErrors(dir: Block, off: nat, s: DirScan)
    requires off + 12 <= 4096 && RecordGood(dir, off) && ScanEntry(dir, off, s).Err?
    requires off + 14 + Get16(dir, off + 10) <= 4096
    ensures ScanEntry(dir, off, s).error ==
            if dir[off + 13] != EntryChecksum(dir, off, Get16(dir, off + 10)) then EILSEQ
            else if EntryGood(dir, off) then EEXIST else EINVAL
  {
    hide EntryIno, EntryChecksum, Get16;
  }

  lemma EntryLength(dir: Block, off: nat)
    requires off + 12 <= 4096 && EntryGood(dir, off)
    ensures 0 < EntryRecLen(dir, off) <= 4096 - off
  {
    hide EntryIno, EntryChecksum, Get16;
  }

  // -------------------------------------------------------------------------------- the walk

  lemma WalkStep(dir: Block, off: nat, rest: seq<nat>)
    requires off + 12 <= 4096 && EntryGood(dir, off) && Walk(dir, off + EntryRecLen(dir, off), rest)
    ensures Walk(dir, off, [off] + rest)
  {
    hide EntryGood, EntryRecLen;
    var offs := [off] + rest;
    forall k | 0 <= k < |offs|
      ensures offs[k] + 12 <= 4096 && EntryGood(dir, offs[k]) && offs[k] + EntryRecLen(dir, offs[k]) == After(offs, k)
    {
      if k > 0 {
        assert offs[k] == rest[k - 1] && After(offs, k) == After(rest, k - 1);
      }
    }
  }

  lemma WalkTail(dir: Block, off: nat, offs: seq<nat>)
    requires offs != [] && Walk(dir, off, offs)
    ensures off + 12 <= 4096 && offs[0] == off && EntryGood(dir, off) && Walk(dir, off + EntryRecLen(dir, off), offs[1..])
  {
    hide EntryGood, EntryRecLen;
    var rest := offs[1..];
    assert off + EntryRecLen(dir, off) == After(offs, 0);
    forall k | 0 <= k < |rest|
      ensures rest[k] + 12 <= 4096 && EntryGood(dir, rest[k]) && rest[k] + EntryRecLen(dir, rest[k]) == After(rest, k)
    {
      assert rest[k] == offs[k + 1] && After(rest, k) == After(offs, k + 1);
    }
  }

  lemma ListsCons(dir: Block, off: nat, rest: seq<nat>, e: Entry)
    ensures Lists(dir, [off] + rest, e) <==> EntryOf(dir, off) == e || Lists(dir, rest, e)
  {
    hide EntryOf;
    var offs := [off] + rest;
    assert offs[0] == off;
    if Lists(dir, rest, e) {
      var k :| 0 <= k < |rest| && EntryOf(dir, rest[k]) == e;
      assert offs[k + 1] == rest[k];
    }
    if Lists(dir, offs, e) && EntryOf(dir, off) != e {
      var k :| 0 <= k < |offs| && EntryOf(dir, offs[k]) == e;
      assert rest[k - 1] == offs[k];
    }
  }

  lemma NoneTwiceCons(dir: Block, off: nat, rest: seq<nat>)
    ensures NoneTwice(dir, [off] + rest) <==>
            NoneTwice(dir, rest) && (EntryOf(dir, off).Names? ==> !Lists(dir, rest, EntryOf(dir, off)))
  {
    hide EntryOf;
    var offs := [off] + rest;
    assert offs[0] == off;
    forall k | 0 <= k < |rest|
      ensures offs[k + 1] == rest[k]
    {
    }
    if NoneTwice(dir, offs) {
      forall j, k | 0 <= j < k < |rest| && EntryOf(dir, rest[j]).Names?
        ensures EntryOf(dir, rest[j]) != EntryOf(dir, rest[k])
      {
        assert EntryOf(dir, offs[j + 1]) != EntryOf(dir, offs[k + 1]);
      }
    }
    if NoneTwice(dir, rest) && (EntryOf(dir, off).Names? ==> !Lists(dir, rest, EntryOf(dir, off))) {
      forall j, k | 0 <= j < k < |offs| && EntryOf(dir, offs[j]).Names?
        ensures EntryOf(dir, offs[j]) != EntryOf(dir, offs[k])
      {
        assert offs[k] == rest[k - 1];
        if j > 0 {
          assert offs[j] == rest[j - 1];
        }
      }
    }
  }

  /** What is left to find from off on, with s found so far. */
  ghost predicate Finds(dir: Block, offs: seq<nat>, s: DirScan) {
    && NoneTwice(dir, offs) && (s.dot || Lists(dir, offs, Dot)) && (s.dotdot || Lists(dir, offs, DotDot))
    && forall n: nat :: n in s.refs ==> !Lists(dir, offs, Names(n))
  }

  lemma FindsCons(dir: Block, off: nat, rest: seq<nat>, s: DirScan, r: DirScan)
    requires Takes(dir, off, s, r)
    ensures Finds(dir, [off] + rest, s) <==> Finds(dir, rest, r)
  {
    hide EntryOf, Lists, NoneTwice;
    NoneTwiceCons(dir, off, rest);
    ListsCons(dir, off, rest, Dot);
    ListsCons(dir, off, rest, DotDot);
    forall n: nat
      ensures Lists(dir, [off] + rest, Names(n)) <==> EntryOf(dir, off) == Names(n) || Lists(dir, rest, Names(n))
    {
      ListsCons(dir, off, rest, Names(n));
    }
  }

  lemma {:induction false} ScanDirMeans(dir: Block, off: nat, s: DirScan) returns (offs: seq<nat>)
    requires off <= 4096 && ScanDir(dir, off, s).Ok?
    ensures Walk(dir, off, offs) && Finds(dir, offs, s)
    ensures forall n: nat :: n in ScanDir(dir, off, s).value.refs <==> n in s.refs || Lists(dir, offs, Names(n))
    decreases 4096 - off
  {
    hide EntryOf, EntryGood, ScanEntry, EntryRecLen;
    if off == 4096 {
      offs := [];
    } else {
      var r := ScanEntry(dir, off, s).value;
      EntryMeans(dir, off, s);
      EntryLength(dir, off);
      var rest := ScanDirMeans(dir, off + EntryRecLen(dir, off), r);
      offs := [off] + rest;
      WalkStep(dir, off, rest);
      FindsCons(dir, off, rest, s, r);
      RefsCons(dir, off, rest, s, r, ScanDir(dir, off, s).value.refs);
    }
  }

  lemma RefsCons(dir: Block, off: nat, rest: seq<nat>, s: DirScan, r: DirScan, refs: set<nat>)
    requires Takes(dir, off, s, r) && forall n: nat :: n in refs <==> n in r.refs || Lists(dir, rest, Names(n))
    ensures forall n: nat :: n in refs <==> n in s.refs || Lists(dir, [off] + rest, Names(n))
  {
    hide EntryOf, Lists;
    forall n: nat
      ensures n in refs <==> n in s.refs || Lists(dir, [off] + rest, Names(n))
    {
      ListsCons(dir, off, rest, Names(n));
    }
  }

  lemma {:induction false} ScanDirAccepts(dir: Block, off: nat, s: DirScan, offs: seq<nat>)
    requires off <= 4096 && Walk(dir, off, offs) && Finds(dir, offs, s)
    ensures ScanDir(dir, off, s).Ok?
    decreases 4096 - off
  {
    hide EntryOf, EntryGood, ScanEntry, EntryRecLen, Walk, Finds;
    if offs == [] {
      NothingListed(dir, off, s);
    } else {
      WalkTail(dir, off, offs);
      assert offs == [off] + offs[1..];
      FirstFits(dir, off, offs[1..], s);
      EntryMeans(dir, off, s);
      EntryLength(dir, off);
      FindsCons(dir, off, offs[1..], s, ScanEntry(dir, off, s).value);
      ScanDirAccepts(dir, off + EntryRecLen(dir, off), ScanEntry(dir, off, s).value, offs[1..]);
    }
  }

  lemma NothingListed(dir: Block, off: nat, s: DirScan)
    requires Walk(dir, off, []) && Finds(dir, [], s)
    ensures off == 4096 && s.dot && s.dotdot
  {
  }

  lemma FirstFits(dir: Block, off: nat, rest: seq<nat>, s: DirScan)
    requires Finds(dir, [off] + rest, s)
    ensures EntryOf(dir, off).Names? ==> EntryOf(dir, off).index !in s.refs
  {
    hide EntryOf, Lists, NoneTwice;
    if EntryOf(dir, off).Names? {
      ListsCons(dir, off, rest, EntryOf(dir, off));
    }
  }

  /** A directory block: good records from end to end, no inode named twice, both
      dot entries. */
  ghost predicate Directory(dir: Block, offs: seq<nat>) {
    Walk(dir, 0, offs) && NoneTwice(dir, offs) && Lists(dir, offs, Dot) && Lists(dir, offs, DotDot)
  }

  /** The walk accepts exactly the directory blocks, and collects exactly the inodes
      their records name. */
  lemma DirectoryExact(dir: Block)
    ensures ScanDir(dir, 0, DirScan({}, false, false)).Ok? <==> exists offs :: Directory(dir, offs)
    ensures ScanDir(dir, 0, DirScan({}, false, false)).Ok? ==>
              exists offs :: Directory(dir, offs) &&
                forall n: nat :: n in ScanDir(dir, 0, DirScan({}, false, false)).value.refs <==> Lists(dir, offs, Names(n))
  {
    hide ScanDir, Walk, NoneTwice, Lists;
    var s := DirScan({}, false, false);
    if ScanDir(dir, 0, s).Ok? {
      var offs := ScanDirMeans(dir, 0, s);
      assert Directory(dir, offs);
    }
    if exists offs :: Directory(dir, offs) {
      var offs :| Directory(dir, offs);
      ScanDirAccepts(dir, 0, s, offs);
    }
  }
}
