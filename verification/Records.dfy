/** Records built field by field: what a structure reads back after a list of
    little-endian stores. */
module Records {
  import opened Bytes

  datatype Field = Field(off: nat, n: nat, v: nat)

  predicate Fits(fs: seq<Field>, size: nat) {
    forall i :: 0 <= i < |fs| ==> fs[i].off + fs[i].n <= size
  }

  /** The fields are listed in address order and do not overlap. */
  predicate InOrder(fs: seq<Field>) {
    forall i :: 0 <= i < |fs| - 1 ==> fs[i].off + fs[i].n <= fs[i + 1].off
  }

  function Write(b: seq<Byte>, fs: seq<Field>): (r: seq<Byte>)
    requires Fits(fs, |b|)
    ensures |r| == |b|
    decreases |fs|
  {
    if fs == [] then b else
    var f := fs[|fs| - 1];
    Put(Write(b, fs[..|fs| - 1]), f.off, f.n, f.v)
  }

  lemma {:induction false} InOrderApart(fs: seq<Field>, i: nat, j: nat)
    requires InOrder(fs) && i < j < |fs|
    ensures fs[i].off + fs[i].n <= fs[j].off
    decreases j - i
  {
    if i + 1 < j {
      InOrderApart(fs, i, j - 1);
    }
  }

  /** Every field of an ascending list reads back as written. */
  lemma {:induction false} WriteGets(b: seq<Byte>, fs: seq<Field>, i: nat)
    requires Fits(fs, |b|) && InOrder(fs) && i < |fs| && fs[i].v < Pow256(fs[i].n)
    ensures Get(Write(b, fs), fs[i].off, fs[i].n) == fs[i].v
    decreases |fs|
  {
    hide Get, Put;
    var last := |fs| - 1;
    var before := Write(b, fs[..last]);
    if i == last {
      GetPut(before, fs[i].off, fs[i].n, fs[i].v);
    } else {
      InOrderApart(fs, i, last);
      GetPutOther(before, fs[last].off, fs[last].n, fs[last].v, fs[i].off, fs[i].n);
      WriteGets(b, fs[..last], i);
    }
  }

  /** A byte outside every field keeps its value. */
  lemma {:induction false} WriteKeeps(b: seq<Byte>, fs: seq<Field>, k: nat)
    requires Fits(fs, |b|) && k < |b|
    requires forall i :: 0 <= i < |fs| ==> k < fs[i].off || fs[i].off + fs[i].n <= k
    ensures Write(b, fs)[k] == b[k]
    decreases |fs|
  {
    hide Put;
    if fs != [] {
      WriteKeeps(b, fs[..|fs| - 1], k);
    }
  }

  /** Storing what the fields hold changes nothing. */
  lemma {:induction false} WriteSame(b: seq<Byte>, fs: seq<Field>)
    requires Fits(fs, |b|) && forall i :: 0 <= i < |fs| ==> Get(b, fs[i].off, fs[i].n) == fs[i].v
    ensures Write(b, fs) == b
    decreases |fs|
  {
    hide Get, Put;
    if fs != [] {
      var f := fs[|fs| - 1];
      WriteSame(b, fs[..|fs| - 1]);
      PutGetSame(b, f.off, f.n);
    }
  }

  /** A field before or after the whole list keeps its value. */
  lemma WriteBeside(b: seq<Byte>, fs: seq<Field>, off: nat, n: nat)
    requires Fits(fs, |b|) && InOrder(fs) && fs != [] && off + n <= |b|
    requires off + n <= fs[0].off || fs[|fs| - 1].off + fs[|fs| - 1].n <= off
    ensures Get(Write(b, fs), off, n) == Get(b, off, n)
  {
    hide Put, Get, Write;
    forall k | off <= k < off + n
      ensures Write(b, fs)[k] == b[k]
    {
      forall i | 0 <= i < |fs|
        ensures k < fs[i].off || fs[i].off + fs[i].n <= k
      {
        if 0 < i {
          InOrderApart(fs, 0, i);
        }
        if i < |fs| - 1 {
          InOrderApart(fs, i, |fs| - 1);
        }
      }
      WriteKeeps(b, fs, k);
    }
    GetFrame(Write(b, fs), b, off, n);
  }
}
