/** Text wrapped at the right margin: which row and column a character lands in. Quotient and
    remainder are written as recursions over the rows, which keeps the proofs linear;
    `RowColDivMod` ties them to the `/` and `%` of the source. */
module Wrap {

  type Positive = n: nat | 1 <= n witness 1

  const BLANK: char := ' '

  function RowOf(cols: Positive, i: nat): nat {
    if i < cols then 0 else 1 + RowOf(cols, i - cols)
  }

  function ColOf(cols: Positive, i: nat): (c: nat)
    ensures c < cols
  {
    if i < cols then i else ColOf(cols, i - cols)
  }

  /** The position of column `c` of row `r` in the text that fills the rows from left to right. */
  function Index(cols: Positive, r: nat, c: nat): (i: nat)
    ensures i >= c
  {
    if r == 0 then c else cols + Index(cols, r - 1, c)
  }

  /** The character a text wrapped at `cols` shows in column `c` of its row `r`. */
  function Wrapped(cols: Positive, text: string, r: nat, c: nat): char {
    var i := Index(cols, r, c);
    if i < |text| then text[i] else BLANK
  }

  lemma {:induction false} RowColDivMod(cols: Positive, i: nat)
    ensures RowOf(cols, i) == i / cols && ColOf(cols, i) == i % cols
  {
    if i < cols {
      SmallDivMod(cols, i);
    } else {
      RowColDivMod(cols, i - cols);
      StepDivMod(cols, i);
    }
  }

  lemma SmallDivMod(d: Positive, i: nat)
    requires i < d
    ensures i / d == 0 && i % d == i
  {}

  lemma StepDivMod(d: Positive, i: nat)
    requires d <= i
    ensures i / d == (i - d) / d + 1 && i % d == (i - d) % d
  {
    var q := (i - d) / d;
    assert i == (q + 1) * d + (i - d) % d;
    MulMono(i / d + 1, q + 1, d);
    MulMono(q + 2, i / d, d);
  }

  lemma MulMono(a: nat, b: nat, d: nat)
    ensures a <= b ==> a * d <= b * d
  {}

  /** Rows and columns number the positions of the text one to one. */
  lemma {:induction false} IndexUnique(cols: Positive, r: nat, c: nat, i: nat)
    requires c < cols
    ensures Index(cols, r, c) == i <==> r == RowOf(cols, i) && c == ColOf(cols, i)
  {
    if r > 0 && i >= cols {
      IndexUnique(cols, r - 1, c, i - cols);
    }
  }

  /** Where the next character goes: one column to the right, or the start of the next row. */
  lemma {:induction false} NextPlace(cols: Positive, i: nat)
    requires i > 0
    ensures ColOf(cols, i - 1) + 1 == cols ==> RowOf(cols, i) == RowOf(cols, i - 1) + 1 && ColOf(cols, i) == 0
    ensures ColOf(cols, i - 1) + 1 < cols ==>
              RowOf(cols, i) == RowOf(cols, i - 1) && ColOf(cols, i) == ColOf(cols, i - 1) + 1
  {
    if i > cols {
      NextPlace(cols, i - cols);
    }
  }

  lemma {:induction false} RowMono(cols: Positive, i: nat, j: nat)
    requires i <= j
    ensures RowOf(cols, i) <= RowOf(cols, j)
  {
    if i >= cols {
      RowMono(cols, i - cols, j - cols);
    }
  }

  /** The number of rows `i` characters occupy. */
  function RowsUsed(cols: Positive, i: nat): nat {
    RowOf(cols, i + cols - 1)
  }

  lemma {:induction false} RowsUsedIsLastRow(cols: Positive, i: nat)
    ensures RowsUsed(cols, 0) == 0
    ensures i > 0 ==> RowsUsed(cols, i) == RowOf(cols, i - 1) + 1
    ensures ColOf(cols, i) == 0 ==> RowsUsed(cols, i) == RowOf(cols, i)
    ensures ColOf(cols, i) != 0 ==> RowsUsed(cols, i) == RowOf(cols, i) + 1
  {
    if i >= cols {
      RowsUsedIsLastRow(cols, i - cols);
    }
  }

  /** Positions of row `r` and below are those from `Index(r, 0)` on. */
  lemma {:induction false} IndexFromRow(cols: Positive, r: nat, c: nat, i: nat)
    requires c < cols && r > RowOf(cols, i)
    ensures Index(cols, r, c) > i
  {
    if i >= cols {
      IndexFromRow(cols, r - 1, c, i - cols);
    }
  }
}
