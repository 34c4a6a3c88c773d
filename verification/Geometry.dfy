/** The arithmetic of the striped layouts, on member ordinals: where a logical
    block lives, which logical block lives in a cell, and that the two are inverse. */
module Geometry {
  import opened Bytes

  /** Cell (ordinal, block): a block of the ordinal-th data member. */
  datatype Cell = Cell(ordinal: nat, block: nat)

  // ------------------------------------------------------------------------ stripe

  function StripeCell(n: nat, s: nat, b: nat): Cell
    requires n > 0 && s > 0 && b >= DATA_START
  {
    var rel := b - DATA_START;
    Cell(rel / s % n, DATA_START + rel / s / n * s + rel % s)
  }

  function StripeBlock(n: nat, s: nat, c: Cell): nat
    requires n > 0 && s > 0 && c.block >= DATA_START
  {
    var rel := c.block - DATA_START;
    DATA_START + (rel / s * n + c.ordinal) * s + rel % s
  }

  lemma StripeThereAndBack(n: nat, s: nat, b: nat)
    requires n > 0 && s > 0 && b >= DATA_START
    ensures var c := StripeCell(n, s, b);
            c.ordinal < n && DATA_START <= c.block <= b && StripeBlock(n, s, c) == b
  {
    var rel := b - DATA_START;
    var stripe := rel / s;
    var row := stripe / n;
    DivMod(rel, s);
    DivMod(stripe, n);
    StripeRow(rel, s, stripe, row, n);
    DivModUnique(row, rel % s, s);
  }

  lemma StripeRow(rel: nat, s: nat, stripe: nat, row: nat, n: nat)
    requires s > 0 && n > 0 && stripe == rel / s && row * n <= stripe
    ensures row * s + rel % s <= rel
  {
    DivMod(rel, s);
    MulLe(1, n, row);
    MulLe(row, stripe, s);
  }

  lemma StripeBackAndThere(n: nat, s: nat, c: Cell)
    requires n > 0 && s > 0 && c.block >= DATA_START && c.ordinal < n
    ensures StripeBlock(n, s, c) >= DATA_START && StripeCell(n, s, StripeBlock(n, s, c)) == c
  {
    var rel := c.block - DATA_START;
    var row, within := rel / s, rel % s;
    DivMod(rel, s);
    MulLe(0, row, n);
    var stripe := row * n + c.ordinal;
    MulLe(0, stripe, s);
    DivModUnique(stripe, within, s);
    DivModUnique(row, c.ordinal, n);
    assert StripeBlock(n, s, c) == DATA_START + stripe * s + within;
  }

  lemma OneMore(a: nat, d: nat)
    ensures (a + 1) * d == a * d + d
  {
  }

  lemma ModUnique(q: nat, r: nat, d: nat, x: nat)
    requires r < d && x == q * d + r
    ensures x / d == q && x % d == r
  {
    DivModUnique(q, r, d);
  }

  /** Position w of a row, as a block of a member. */
  function RowBlock(row: nat, s: nat, w: nat): nat {
    DATA_START + row * s + w
  }

  lemma RowBlocks(row: nat, s: nat, w: nat)
    requires w < s
    ensures RowBlock(row, s, w) >= DATA_START && (RowBlock(row, s, w) - DATA_START) % s == w && (RowBlock(row, s, w) - DATA_START) / s == row
    ensures RowBlock(row, s, w + 1) == RowBlock(row, s, w) + 1 && RowBlock(row, s, 0) + w == RowBlock(row, s, w)
    ensures w + 1 == s ==> RowBlock(row + 1, s, 0) == RowBlock(row, s, w) + 1
  {
    MulLe(0, row, s);
    OneMore(row, s);
    DivModUnique(row, w, s);
  }

  /** Position w of stripe o of a row. */
  function StripePlace(n: nat, s: nat, row: nat, o: nat, w: nat): nat {
    DATA_START + (row * n + o) * s + w
  }

  lemma StripeAt(n: nat, s: nat, row: nat, o: nat, w: nat)
    requires o < n && w < s
    ensures StripeCell(n, s, StripePlace(n, s, row, o, w)) == Cell(o, RowBlock(row, s, w))
  {
    var stripe := row * n + o;
    ModUnique(stripe, w, s, stripe * s + w);
    ModUnique(row, o, n, stripe);
  }

  /** Every block is such a position. */
  lemma StripeFind(n: nat, s: nat, b: nat) returns (row: nat, o: nat, w: nat)
    requires n > 0 && s > 0 && b >= DATA_START
    ensures o < n && w < s && b == StripePlace(n, s, row, o, w)
  {
    var rel := b - DATA_START;
    row, o, w := rel / s / n, rel / s % n, rel % s;
    DivMod(rel, s);
    DivMod(rel / s, n);
  }

  lemma StripeNext(n: nat, s: nat, row: nat, o: nat, w: nat)
    requires o < n && w < s
    ensures StripePlace(n, s, row, o, w) + 1 ==
            if w + 1 < s then StripePlace(n, s, row, o, w + 1)
            else if o + 1 < n then StripePlace(n, s, row, o + 1, 0)
            else StripePlace(n, s, row + 1, 0, 0)
  {
    if w + 1 == s {
      OneMore(row * n + o, s);
      OneMore(row, n);
    }
  }

  lemma StripeStarts(n: nat, s: nat)
    ensures StripePlace(n, s, 0, 0, 0) == DATA_START
  {
  }

  /** The cell after c: the next block of the stripe, or the start of the row on member
      `next`, or the next row on member `first` if there is no such member. */
  predicate Follows(n: nat, s: nat, c: Cell, next: nat, first: nat, c': Cell)
    requires s > 0
  {
    && c.ordinal < n && c.block >= DATA_START
    && if (c.block - DATA_START) % s + 1 < s then c'.ordinal == c.ordinal && c'.block == c.block + 1
       else if next < n then c'.ordinal == next && c'.block + s == c.block + 1
       else c'.ordinal == first && c'.block == c.block + 1
  }

  /** Striping in order: block 8 is the first of member 0; blocks of a stripe follow
      each other, the next stripe is on the next member, and after the last member the
      next row begins. */
  lemma StripeOrder(n: nat, s: nat, b: nat)
    requires n > 0 && s > 0 && b >= DATA_START
    ensures StripeCell(n, s, DATA_START) == Cell(0, DATA_START)
    ensures var c := StripeCell(n, s, b); Follows(n, s, c, c.ordinal + 1, 0, StripeCell(n, s, b + 1))
  {
    hide StripeCell, StripePlace, RowBlock;
    StripeStarts(n, s);
    StripeAt(n, s, 0, 0, 0);
    var row, o, w := StripeFind(n, s, b);
    StripeAt(n, s, row, o, w);
    StripeNext(n, s, row, o, w);
    RowBlocks(row, s, w);
    RowStart(s);
    if w + 1 < s {
      StripeAt(n, s, row, o, w + 1);
    } else if o + 1 < n {
      StripeAt(n, s, row, o + 1, 0);
    } else {
      StripeAt(n, s, row + 1, 0, 0);
    }
  }

  lemma RowStart(s: nat)
    ensures RowBlock(0, s, 0) == DATA_START
  {
  }

  // --------------------------------------------------------------- rotating parity

  /** The ordinal of the member that holds the parity of the row of member block mb. */
  function ParityOrdinal(n: nat, s: nat, mb: nat): nat
    requires n > 0 && s > 0 && mb >= DATA_START
  {
    (mb - DATA_START) / s % n
  }

  function ParityCell(n: nat, s: nat, b: nat): Cell
    requires n >= 2 && s > 0 && b >= DATA_START
  {
    var width := (n - 1) * s;
    assert width > 0 by { MulLe(1, n - 1, s); }
    var rel := b - DATA_START;
    var row, position := rel / width, rel % width;
    var parity, data := row % n, position / s;
    MulLe(0, row, s);
    Cell(if data >= parity then data + 1 else data, DATA_START + row * s + position % s)
  }

  function ParityBlock(n: nat, s: nat, c: Cell): nat
    requires n >= 2 && s > 0 && c.block >= DATA_START
    requires c.ordinal < n && c.ordinal != ParityOrdinal(n, s, c.block)
  {
    var rel := c.block - DATA_START;
    var data := if c.ordinal > ParityOrdinal(n, s, c.block) then c.ordinal - 1 else c.ordinal;
    MulLe(0, n - 1, s);
    MulLe(0, rel / s, (n - 1) * s);
    MulLe(0, data, s);
    DATA_START + rel / s * ((n - 1) * s) + (data * s + rel % s)
  }

  lemma ParityOrdinalBound(n: nat, s: nat, mb: nat)
    requires n > 0 && s > 0 && mb >= DATA_START
    ensures ParityOrdinal(n, s, mb) < n
  {
  }

  lemma ParityInRow(n: nat, s: nat, row: nat, w: nat)
    requires n > 0 && w < s
    ensures RowBlock(row, s, w) >= DATA_START && ParityOrdinal(n, s, RowBlock(row, s, w)) == row % n
  {
    RowBlocks(row, s, w);
  }

  lemma ModStep(x: nat, n: nat)
    requires n > 0
    ensures (x + 1) % n == if x % n + 1 < n then x % n + 1 else 0
  {
    var q, r := x / n, x % n;
    DivMod(x, n);
    OneMore(q, n);
    if r + 1 < n {
      ModUnique(q, r + 1, n, x + 1);
    } else {
      ModUnique(q + 1, 0, n, x + 1);
    }
  }

  /** The parity of the first row is on member 0, and moves on by one member a row. */
  lemma ParityRotates(n: nat, s: nat, mb: nat)
    requires n > 0 && s > 0 && mb >= DATA_START
    ensures ParityOrdinal(n, s, DATA_START) == 0
    ensures var q := ParityOrdinal(n, s, mb);
            ParityOrdinal(n, s, mb + 1) == if (mb - DATA_START) % s + 1 < s then q else if q + 1 < n then q + 1 else 0
  {
    hide ParityOrdinal, RowBlock;
    var row, w := RowFind(s, mb);
    RowBlocks(row, s, w);
    RowStart(s);
    ParityInRow(n, s, 0, 0);
    ParityInRow(n, s, row, w);
    if w + 1 < s {
      ParityInRow(n, s, row, w + 1);
    } else {
      ParityInRow(n, s, row + 1, 0);
      ModStep(row, n);
    }
  }

  lemma RowFind(s: nat, mb: nat) returns (row: nat, w: nat)
    requires s > 0 && mb >= DATA_START
    ensures w < s && mb == RowBlock(row, s, w)
  {
    row, w := (mb - DATA_START) / s, (mb - DATA_START) % s;
    DivMod(mb - DATA_START, s);
  }

  /** Position w of data stripe k of a row. */
  function ParityPlace(n: nat, s: nat, row: nat, k: nat, w: nat): nat
    requires n > 0
  {
    DATA_START + row * ((n - 1) * s) + (k * s + w)
  }

  /** The member that holds data stripe k of a row with parity on member q. */
  function DataOrdinal(k: nat, q: nat): nat {
    if k >= q then k + 1 else k
  }

  lemma ParityAt(n: nat, s: nat, row: nat, k: nat, w: nat)
    requires n >= 2 && k < n - 1 && w < s
    ensures ParityCell(n, s, ParityPlace(n, s, row, k, w)) == Cell(DataOrdinal(k, row % n), RowBlock(row, s, w))
  {
    var width := (n - 1) * s;
    var position := k * s + w;
    OneMore(k, s);
    MulLe(k + 1, n - 1, s);
    MulLe(0, k, s);
    MulLe(0, row, width);
    ModUnique(row, position, width, row * width + position);
    ModUnique(k, w, s, position);
  }

  lemma ParityFind(n: nat, s: nat, b: nat) returns (row: nat, k: nat, w: nat)
    requires n >= 2 && s > 0 && b >= DATA_START
    ensures k < n - 1 && w < s && b == ParityPlace(n, s, row, k, w)
  {
    var width := (n - 1) * s;
    MulLe(1, n - 1, s);
    var rel := b - DATA_START;
    row, k, w := rel / width, rel % width / s, rel % width % s;
    DivMod(rel, width);
    DivMod(rel % width, s);
    QuotientBelow(rel % width, n - 1, s);
  }

  lemma ParityNext(n: nat, s: nat, row: nat, k: nat, w: nat)
    requires n >= 2 && k < n - 1 && w < s
    ensures ParityPlace(n, s, row, k, w) + 1 ==
            if w + 1 < s then ParityPlace(n, s, row, k, w + 1)
            else if k + 1 < n - 1 then ParityPlace(n, s, row, k + 1, 0)
            else ParityPlace(n, s, row + 1, 0, 0)
  {
    if w + 1 == s {
      OneMore(k, s);
      OneMore(row, (n - 1) * s);
    }
  }

  lemma ParityStarts(n: nat, s: nat)
    requires n > 0
    ensures ParityPlace(n, s, 0, 0, 0) == DATA_START
  {
  }

  /** Rotating parity in order: blocks of a stripe follow each other, the next stripe is
      on the next member of the row that does not hold its parity, and after the last
      one the next row begins. */
  lemma ParityOrder(n: nat, s: nat, b: nat)
    requires n >= 2 && s > 0 && b >= DATA_START
    ensures ParityCell(n, s, DATA_START) == Cell(1, DATA_START)
    ensures var c := ParityCell(n, s, b);
            && c.block >= DATA_START
            && var q, q' := ParityOrdinal(n, s, c.block), ParityOrdinal(n, s, c.block + 1);
               Follows(n, s, c, if c.ordinal + 1 == q then q + 1 else c.ordinal + 1, if q' == 0 then 1 else 0, ParityCell(n, s, b + 1))
  {
    hide ParityCell, ParityPlace, ParityOrdinal, RowBlock;
    ParityStarts(n, s);
    ParityAt(n, s, 0, 0, 0);
    var row, k, w := ParityFind(n, s, b);
    ParityAt(n, s, row, k, w);
    ParityInRow(n, s, row, w);
    ParityNext(n, s, row, k, w);
    RowBlocks(row, s, w);
    RowStart(s);
    ModBound(row, n);
    if w + 1 < s {
      ParityAt(n, s, row, k, w + 1);
    } else if k + 1 < n - 1 {
      ParityAt(n, s, row, k + 1, 0);
    } else {
      ParityAt(n, s, row + 1, 0, 0);
      ParityInRow(n, s, row + 1, 0);
    }
  }

  lemma ModBound(x: nat, n: nat)
    requires n > 0
    ensures x % n < n
  {
  }

  lemma QuotientBelow(x: nat, m: nat, s: nat)
    requires s > 0 && x < m * s
    ensures x / s < m
  {
    DivMod(x, s);
    if x / s >= m {
      MulLe(m, x / s, s);
    }
  }

  /** A logical block maps to a cell that is not its row's parity cell, and the
      cell determines the block. */
  lemma ParityThereAndBack(n: nat, s: nat, b: nat)
    requires n >= 2 && s > 0 && b >= DATA_START
    ensures var c := ParityCell(n, s, b);
            && c.ordinal < n && DATA_START <= c.block <= b
            && c.ordinal != ParityOrdinal(n, s, c.block)
            && ParityBlock(n, s, c) == b
  {
    var width := (n - 1) * s;
    MulLe(1, n - 1, s);
    var rel := b - DATA_START;
    var row, position := rel / width, rel % width;
    DivMod(rel, width);
    DivMod(position, s);
    QuotientBelow(position, n - 1, s);
    DivModUnique(row, position % s, s);
    MulLe(s, width, row);
    var c := ParityCell(n, s, b);
    assert c.block == DATA_START + (row * s + position % s);
    assert ParityOrdinal(n, s, c.block) == row % n;
    assert ParityBlock(n, s, c) == DATA_START + row * width + (position / s * s + position % s);
  }

  /** Every cell off its row's parity member holds a logical block. */
  lemma ParityBackAndThere(n: nat, s: nat, c: Cell)
    requires n >= 2 && s > 0 && c.block >= DATA_START
    requires c.ordinal < n && c.ordinal != ParityOrdinal(n, s, c.block)
    ensures var b := ParityBlock(n, s, c); b >= DATA_START && ParityCell(n, s, b) == c
  {
    var width := (n - 1) * s;
    var rel := c.block - DATA_START;
    var row := rel / s;
    var data := if c.ordinal > row % n then c.ordinal - 1 else c.ordinal;
    var position := data * s + rel % s;
    DivMod(rel, s);
    MulLe(0, data, s);
    MulLe(data + 1, n - 1, s);
    assert (data + 1) * s == data * s + s;
    MulLe(0, row, width);
    DivModUnique(row, position, width);
    DivModUnique(data, rel % s, s);
    assert ParityBlock(n, s, c) == DATA_START + row * width + position;
  }

  /** A completed parity row: the logical blocks of n - 1 stripes fill all the
      cells of the row but the parity ones. */
  lemma ParityCapacity(n: nat, s: nat, rows: nat, b: nat)
    requires n >= 2 && s > 0 && b >= DATA_START
    ensures b - DATA_START < rows * ((n - 1) * s) <==> ParityCell(n, s, b).block - DATA_START < rows * s
  {
    var width := (n - 1) * s;
    MulLe(1, n - 1, s);
    var rel := b - DATA_START;
    DivMod(rel, width);
    var row, position := rel / width, rel % width;
    DivMod(position, s);
    RowBelow(rows, row, position, width);
    RowBelow(rows, row, position % s, s);
  }

  lemma RowBelow(rows: nat, row: nat, within: nat, width: nat)
    requires within < width
    ensures row * width + within < rows * width <==> row < rows
  {
    if row < rows {
      MulLe(row + 1, rows, width);
      assert (row + 1) * width == row * width + width;
    } else {
      MulLe(rows, row, width);
    }
  }

  /** Over stripe-aligned members of rows * s data blocks each, striping places
      exactly the blocks below the joint capacity. */
  lemma StripeCapacity(n: nat, s: nat, rows: nat, b: nat)
    requires n > 0 && s > 0 && b >= DATA_START
    ensures b - DATA_START < n * (rows * s) <==> StripeCell(n, s, b).block - DATA_START < rows * s
  {
    var rel := b - DATA_START;
    DivMod(rel, s);
    DivMod(rel / s, n);
    var row := rel / s / n;
    RowBelow(rows, row, rel % s, s);
    RowBelow(rows, row, rel / s % n, n);
    RowBelow(rows * n, rel / s, rel % s, s);
    assert n * (rows * s) == rows * n * s;
  }
}
