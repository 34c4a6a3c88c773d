/** The deduplication table as the kernel keeps it: an array of singly linked
    chains, updated in place. */
module DedupTable {
  import opened Bytes
  import opened Dedup

  class Entry {
    const data: Data
    var refs: Count
    var next: Entry?

    constructor (d: Data, n: Entry?)
      ensures data == d && refs == 1 && next == n
    {
      data := d;
      refs := 1;
      next := n;
    }
  }

  ghost function ItemsOf(c: seq<Entry>): (r: seq<Item>)
    reads c
    ensures |r| == |c| && forall i :: 0 <= i < |c| ==> r[i] == Item(c[i].data, c[i].refs)
  {
    seq(|c|, i requires 0 <= i < |c| reads c => Item(c[i].data, c[i].refs))
  }

  /** The entry after place i, if any. */
  ghost function After(c: seq<Entry>, i: nat): Entry? {
    if i + 1 < |c| then c[i + 1] else null
  }

  /** head leads through exactly the entries of c. */
  ghost predicate Links(head: Entry?, c: seq<Entry>)
    reads c
  {
    && head == (if c == [] then null else c[0])
    && forall i :: 0 <= i < |c| ==> c[i].next == After(c, i)
  }

  /** The entries belong to bucket h and hold different strings. */
  ghost predicate Sorts(hash: Hash, c: seq<Entry>, h: nat) {
    && (forall i :: 0 <= i < |c| ==> hash(c[i].data) == h)
    && (forall i, j :: 0 <= i < j < |c| ==> c[i].data != c[j].data)
  }

  lemma LinksPushed(entry: Entry, head: Entry?, c: seq<Entry>)
    requires Links(head, c) && entry.next == head
    ensures Links(entry, [entry] + c)
  {
    var c' := [entry] + c;
    forall i | 0 <= i < |c'|
      ensures c'[i].next == After(c', i)
    {
      if i > 0 {
        assert c'[i] == c[i - 1] && c[i - 1].next == After(c, i - 1);
      }
    }
  }

  lemma SortsPushed(hash: Hash, entry: Entry, c: seq<Entry>, h: nat)
    requires Sorts(hash, c, h) && hash(entry.data) == h && forall k :: 0 <= k < |c| ==> c[k].data != entry.data
    ensures Sorts(hash, [entry] + c, h)
  {
  }

  /** A chain whose link to place i skips it. */
  lemma LinksCut(head: Entry?, c: seq<Entry>, i: nat)
    requires i < |c| && head == (if i == 0 then After(c, 0) else c[0])
    requires forall k :: 0 <= k < |c| ==> c[k].next == if k + 1 == i then After(c, i) else After(c, k)
    ensures Links(head, c[..i] + c[i + 1..])
  {
    var c' := c[..i] + c[i + 1..];
    forall k | 0 <= k < |c'|
      ensures c'[k].next == After(c', k)
    {
      assert c'[k] == c[if k < i then k else k + 1];
      assert c[if k < i then k else k + 1].next == if k + 1 == i then After(c, i) else After(c, if k < i then k else k + 1);
    }
  }

  lemma LinksRest(head: Entry?, c: seq<Entry>)
    requires c != [] && Links(head, c)
    ensures Links(c[0].next, c[1..])
  {
    assert c[0].next == After(c, 0);
    LinksCut(c[0].next, c, 0);
    assert c[..0] + c[1..] == c[1..];
  }

  lemma SortsCut(hash: Hash, c: seq<Entry>, i: nat, h: nat)
    requires Sorts(hash, c, h) && i < |c|
    ensures Sorts(hash, c[..i] + c[i + 1..], h)
  {
  }

  class HashTable {
    const hash: Hash
    const heads: array<Entry?>
    ghost var chains: seq<seq<Entry>>
    ghost var nodes: set<Entry>

    ghost predicate ChainValid(h: nat)
      reads this, heads, nodes
      requires h < heads.Length == |chains|
    {
      && (forall i :: 0 <= i < |chains[h]| ==> chains[h][i] in nodes)
      && Sorts(hash, chains[h], h) && Links(heads[h], chains[h])
    }

    ghost predicate Valid()
      reads this, heads, nodes
    {
      heads.Length == BUCKETS == |chains| && forall h :: 0 <= h < BUCKETS ==> ChainValid(h)
    }

    /** The table as a value, chain by chain. */
    ghost function Contents(): (t: Table)
      reads this, heads, nodes
      requires Valid()
      ensures forall h :: 0 <= h < BUCKETS ==> t[h] == ItemsOf(chains[h])
    {
      seq(BUCKETS, h requires 0 <= h < BUCKETS && Valid() reads this, heads, nodes => assert ChainValid(h); ItemsOf(chains[h]))
    }

    constructor (hash: Hash)
      ensures Valid() && this.hash == hash && fresh(heads) && fresh(nodes) && Contents() == EmptyTable()
    {
      this.hash := hash;
      heads := new Entry?[BUCKETS](_ => null);
      chains := seq(BUCKETS, _ => []);
      nodes := {};
    }

    /** The walk along a chain: the entry that holds d, and the one before it. */
    method Locate(d: Data) returns (entry: Entry?, prev: Entry?, ghost i: nat)
      requires Valid()
      ensures var c := chains[hash(d)];
              && i == Find(Contents()[hash(d)], d) && i <= |c|
              && entry == (if i < |c| then c[i] else null)
              && prev == (if i == 0 then null else c[i - 1])
              && (entry == null <==> i == |c|) && (entry != null ==> entry in nodes)
              && (prev == null <==> i == 0) && (prev != null ==> prev in nodes)
    {
      hide Find;
      var h := hash(d);
      assert ChainValid(h);
      ghost var c := chains[h];
      assert Links(heads[h], c);
      entry, prev, i := heads[h], null, 0;
      while entry != null && entry.data != d
        invariant i <= |c| && entry == (if i < |c| then c[i] else null) && prev == (if i == 0 then null else c[i - 1])
        invariant forall k :: 0 <= k < i ==> c[k].data != d
        decreases |c| - i
      {
        assert c[i].next == After(c, i);
        prev := entry;
        entry := entry.next;
        i := i + 1;
      }
    }

    /** An entry has one place. */
    lemma Apart(h: nat, i: nat, k: nat, j: nat)
      requires Valid() && h < BUCKETS && k < BUCKETS && i < |chains[h]| && j < |chains[k]|
      ensures chains[h][i] == chains[k][j] ==> h == k && i == j
    {
      assert ChainValid(h) && ChainValid(k);
      assert hash(chains[h][i].data) == h && hash(chains[k][j].data) == k;
    }

    /** `aetherfs_dedup_metadata` */
    method Put(d: Data, memory: bool) returns (rc: Rc)
      requires Valid()
      modifies this, heads, nodes
      ensures Valid() && fresh(nodes - old(nodes))
      ensures Change(Contents(), rc) == Added(hash, old(Contents()), d, memory)
    {
      hide Find, Sorts, Links, ItemsOf, Valid, ChainValid, Contents;
      if |d| == 0 || |d| > MAX_SIZE {
        return Neg(EINVAL);
      }
      ghost var h := hash(d);
      var entry, prev, i := Locate(d);
      if entry != null {
        SetRefs(h, i, entry, (entry.refs + 1) % U32);
        return Zero;
      }
      if !memory {
        return Neg(ENOMEM);
      }
      Push(d);
      rc := Zero;
    }

    /** A reference count changes in place. */
    method SetRefs(ghost h: nat, ghost i: nat, entry: Entry, refs: Count)
      requires Valid() && h < BUCKETS && i < |chains[h]| && entry == chains[h][i] && entry in nodes
      modifies entry`refs
      ensures Valid() && Contents() == old(Contents())[h := old(Contents())[h][i := Item(entry.data, refs)]]
    {
      hide Find;
      ghost var was := Contents();
      forall k, j | 0 <= k < BUCKETS && 0 <= j < |chains[k]| && (k != h || j != i)
        ensures chains[k][j] != entry
      {
        Apart(h, i, k, j);
      }
      entry.refs := refs;
      forall k | 0 <= k < BUCKETS
        ensures ChainValid(k)
      {
        assert old(ChainValid(k));
        assert old(Links(heads[k], chains[k]));
      }
      forall k | 0 <= k < BUCKETS
        ensures ItemsOf(chains[k]) == if k == h then was[h][i := Item(entry.data, refs)] else was[k]
      {
      }
    }

    /** A new entry at the head of its chain. */
    method Push(d: Data)
      requires Valid() && Find(Contents()[hash(d)], d) == |chains[hash(d)]|
      modifies this, heads
      ensures Valid() && fresh(nodes - old(nodes))
      ensures Contents() == old(Contents())[hash(d) := [Item(d, 1)] + old(Contents())[hash(d)]]
    {
      hide Find, Sorts, Links, ItemsOf;
      var h := hash(d);
      ghost var was, c, head := Contents(), chains[h], heads[h];
      assert ChainValid(h);
      var entry := new Entry(d, heads[h]);
      heads[h] := entry;
      chains := chains[h := [entry] + c];
      nodes := nodes + {entry};
      SortsPushed(hash, entry, c, h);
      LinksPushed(entry, head, c);
      forall k | 0 <= k < BUCKETS
        ensures ChainValid(k)
      {
        assert old(ChainValid(k));
      }
      forall k | 0 <= k < BUCKETS
        ensures ItemsOf(chains[k]) == if k == h then [Item(d, 1)] + was[h] else was[k]
      {
        assert old(ChainValid(k));
        if k == h {
          assert ItemsOf([entry] + c) == [Item(d, 1)] + ItemsOf(c);
        }
      }
    }

    /** `aetherfs_dedup_release` */
    method Release(d: Data) returns (rc: Rc)
      requires Valid()
      modifies this, heads, nodes
      ensures Valid() && nodes == old(nodes)
      ensures Change(Contents(), rc) == Released(hash, old(Contents()), d)
    {
      hide Find, Sorts, Links, ItemsOf, Valid, ChainValid, Contents;
      if |d| == 0 {
        return Neg(EINVAL);
      }
      var h := hash(d);
      var entry, prev, i := Locate(d);
      if entry == null {
        return Neg(ENOENT);
      }
      var refs := (entry.refs - 1) % U32;
      SetRefs(h, i, entry, refs);
      if refs == 0 {
        Unlink(h, i, entry, prev);
      }
      rc := Zero;
    }

    /** The link that leads to an entry is redirected past it. */
    method Unlink(h: nat, ghost i: nat, entry: Entry, prev: Entry?)
      requires Valid() && h < BUCKETS && i < |chains[h]| && entry == chains[h][i]
      requires (prev == null <==> i == 0) && (prev != null ==> prev == chains[h][i - 1] && prev in nodes)
      modifies this`chains, heads, nodes
      ensures Valid() && nodes == old(nodes)
      ensures Contents() == old(Contents())[h := old(Contents())[h][..i] + old(Contents())[h][i + 1..]]
    {
      hide Find, Sorts, Links, ItemsOf, Valid, ChainValid, Contents;
      if prev == null {
        ghost var items := Contents()[h];
        assert items[..0] + items[1..] == items[1..];
        CutHead(h, entry);
      } else {
        CutAfter(h, i, entry, prev);
      }
    }

    /** The first entry of a chain is taken out. */
    method CutHead(h: nat, entry: Entry)
      requires Valid() && h < BUCKETS && chains[h] != [] && entry == chains[h][0]
      modifies this`chains, heads
      ensures Valid() && Contents() == old(Contents())[h := old(Contents())[h][1..]]
    {
      hide Find, Sorts, Links, After, ItemsOf;
      ghost var was, c := Contents(), chains[h];
      assert ChainValid(h);
      SortsCut(hash, c, 0, h);
      LinksRest(heads[h], c);
      assert c[..0] + c[1..] == c[1..];
      assert ItemsOf(c[1..]) == was[h][1..];
      heads[h] := entry.next;
      chains := chains[h := c[1..]];
      forall k | 0 <= k < BUCKETS
        ensures ChainValid(k)
      {
        assert old(ChainValid(k));
      }
      assert forall k :: 0 <= k < BUCKETS && k != h ==> ItemsOf(chains[k]) == was[k];
    }

    /** The link after `prev` skips one entry; no other link changes. */
    method SkipNext(ghost h: nat, ghost i: nat, entry: Entry, prev: Entry)
      requires Valid() && h < BUCKETS && 0 < i < |chains[h]| && entry == chains[h][i] && prev == chains[h][i - 1]
      modifies prev`next
      ensures Links(heads[h], chains[h][..i] + chains[h][i + 1..])
      ensures forall k :: 0 <= k < BUCKETS && k != h ==> Links(heads[k], chains[k])
    {
      hide Find, Sorts, ItemsOf;
      assert ChainValid(h) && Links(heads[h], chains[h]);
      assert chains[h][i].next == After(chains[h], i);
      forall k, j | 0 <= k < BUCKETS && 0 <= j < |chains[k]| && (k != h || j != i - 1)
        ensures chains[k][j] != prev
      {
        Apart(h, i - 1, k, j);
      }
      prev.next := entry.next;
      LinksCut(heads[h], chains[h], i);
      forall k | 0 <= k < BUCKETS && k != h
        ensures Links(heads[k], chains[k])
      {
        assert old(ChainValid(k));
        forall j | 0 <= j < |chains[k]|
          ensures chains[k][j].next == After(chains[k], j)
        {
          assert chains[k][j] != prev;
        }
      }
    }

    /** The entry after `prev` is taken out. */
    method CutAfter(ghost h: nat, ghost i: nat, entry: Entry, prev: Entry)
      requires Valid() && h < BUCKETS && 0 < i < |chains[h]| && entry == chains[h][i] && prev == chains[h][i - 1]
      modifies this`chains, prev`next
      ensures Valid() && Contents() == old(Contents())[h := old(Contents())[h][..i] + old(Contents())[h][i + 1..]]
    {
      hide Find, Sorts, Links, After;
      ghost var was, c := Contents(), chains[h];
      assert ChainValid(h);
      SkipNext(h, i, entry, prev);
      SortsCut(hash, c, i, h);
      assert forall k :: 0 <= k < BUCKETS ==> ItemsOf(chains[k]) == was[k];
      chains := chains[h := c[..i] + c[i + 1..]];
      forall k | 0 <= k < BUCKETS
        ensures ChainValid(k)
      {
        assert old(ChainValid(k));
      }
      assert ItemsOf(chains[h]) == was[h][..i] + was[h][i + 1..];
    }
  }
}
