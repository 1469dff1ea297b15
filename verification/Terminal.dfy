/** The terminal the line editor writes to: a grid of unbounded height, a cursor, and the few
    control functions of ECMA-48 the editor uses: CUU (8.3.22), CUD (8.3.19), CUF (8.3.20) and
    EL (8.3.41), next to printing, carriage return and line feed. */
module Terminal {
  import opened Wrap

  /** One item of the output stream. The parameter of a cursor movement is the number written in
      the escape sequence; 0 stands for the default, 1. ClearScreen is CUP home followed by ED. */
  datatype Out = Text(c: char) | Cr | Lf | Up(n: nat) | Down(n: nat) | Forward(n: nat) | EraseRight | ClearScreen

  /** The cursor column equals `cols` while a wrap is pending: a full row does not move the cursor
      to the next row until one more character is printed. */
  datatype Term = Term(cols: Positive, cell: (nat, nat) -> char, row: nat, col: nat)

  function Count(n: nat): nat {
    if n == 0 then 1 else n
  }

  function Put(t: Term, row: nat, col: nat, ch: char): Term {
    t.(cell := (r: nat, c: nat) => if r == row && c == col then ch else t.cell(r, c), row := row, col := col + 1)
  }

  function Step(t: Term, o: Out): Term {
    match o
    case Text(ch) => if t.col >= t.cols then Put(t, t.row + 1, 0, ch) else Put(t, t.row, t.col, ch)
    case Cr => t.(col := 0)
    case Lf => t.(row := t.row + 1)
    case Up(n) => t.(row := if Count(n) <= t.row then t.row - Count(n) else 0)
    case Down(n) => t.(row := t.row + Count(n))
    case Forward(n) => t.(col := if t.col + Count(n) < t.cols then t.col + Count(n) else t.cols - 1)
    case ClearScreen => t.(cell := (r: nat, c: nat) => BLANK, row := 0, col := 0)
    case EraseRight => t.(cell := (r: nat, c: nat) => if r == t.row && t.col <= c then BLANK else t.cell(r, c))
  }

  function Run(t: Term, out: seq<Out>): Term
    decreases |out|
  {
    if out == [] then t else Run(Step(t, out[0]), out[1..])
  }

  function Texts(s: string): (out: seq<Out>)
    ensures |out| == |s|
  {
    seq(|s|, i requires 0 <= i < |s| => Text(s[i]))
  }

  lemma {:induction false} RunAppend(t: Term, a: seq<Out>, b: seq<Out>)
    ensures Run(t, a + b) == Run(Run(t, a), b)
    decreases |a|
  {
    if a == [] {
      assert a + b == b;
    } else {
      assert (a + b)[0] == a[0] && (a + b)[1..] == a[1..] + b;
      RunAppend(Step(t, a[0]), a[1..], b);
    }
  }

  // ---------- what the screen shows ----------

  /** The cursor after `i` characters were printed starting in column 0 of row `top`. */
  ghost predicate After(t: Term, top: nat, i: nat) {
    if i == 0 then t.row == top && t.col == 0
    else t.row == top + RowOf(t.cols, i - 1) && t.col == ColOf(t.cols, i - 1) + 1
  }

  ghost predicate BlankFrom(t: Term, top: nat) {
    forall r: nat, c: nat :: top <= r && c < t.cols ==> t.cell(r, c) == BLANK
  }

  ghost predicate SameAbove(t: Term, u: Term, top: nat) {
    forall r: nat, c: nat :: r < top && c < t.cols ==> u.cell(r, c) == t.cell(r, c)
  }

  /** Every cell from row `top` down is what the wrapped text, and nothing else, puts there. */
  ghost predicate ShowsText(t: Term, top: nat, text: string) {
    forall r: nat, c: nat :: top <= r && c < t.cols ==> t.cell(r, c) == Wrapped(t.cols, text, r - top, c)
  }

  lemma {:induction false} RunKeepsCols(t: Term, out: seq<Out>)
    ensures Run(t, out).cols == t.cols
    decreases |out|
  {
    if out != [] {
      RunKeepsCols(Step(t, out[0]), out[1..]);
    }
  }

  lemma RunOne(t: Term, o: Out)
    ensures Run(t, [o]) == Step(t, o)
  {
    assert [o][1..] == [];
  }

  lemma RunTwo(t: Term, o: Out, p: Out)
    ensures Run(t, [o, p]) == Step(Step(t, o), p)
  {
    assert [o, p][1..] == [p];
    RunOne(Step(t, o), p);
  }

  lemma PrintChar(t: Term, top: nat, i: nat, ch: char)
    requires After(t, top, i)
    ensures var v := Step(t, Text(ch));
            && v.cols == t.cols && After(v, top, i + 1)
            && forall r: nat, c: nat :: c < t.cols ==>
                 v.cell(r, c) == if top <= r && Index(t.cols, r - top, c) == i then ch else t.cell(r, c)
  {
    if i > 0 {
      NextPlace(t.cols, i);
    }
    var v := Step(t, Text(ch));
    assert v.row == top + RowOf(t.cols, i) && v.col == ColOf(t.cols, i) + 1;
    forall r: nat, c: nat | c < t.cols
      ensures v.cell(r, c) == if top <= r && Index(t.cols, r - top, c) == i then ch else t.cell(r, c)
    {
      if top <= r {
        IndexUnique(t.cols, r - top, c, i);
      }
    }
  }

  lemma {:induction false} PrintText(t: Term, top: nat, i: nat, s: string)
    requires After(t, top, i)
    ensures var u := Run(t, Texts(s));
            && u.cols == t.cols && After(u, top, i + |s|)
            && forall r: nat, c: nat :: c < t.cols ==>
                 u.cell(r, c) == if top <= r && i <= Index(t.cols, r - top, c) < i + |s|
                                 then s[Index(t.cols, r - top, c) - i] else t.cell(r, c)
    decreases |s|
  {
    if s != [] {
      PrintChar(t, top, i, s[0]);
      assert Texts(s)[0] == Text(s[0]) && Texts(s)[1..] == Texts(s[1..]);
      PrintText(Step(t, Text(s[0])), top, i + 1, s[1..]);
    }
  }

  /** Printing onto a blank area shows the text wrapped at the margin, and leaves the cursor in the
      last row it used. */
  lemma PrintOnBlank(t: Term, top: nat, s: string)
    requires t.row == top && t.col == 0 && BlankFrom(t, top)
    ensures var u := Run(t, Texts(s));
            u.cols == t.cols && After(u, top, |s|) && ShowsText(u, top, s) && SameAbove(t, u, top)
  {
    PrintText(t, top, 0, s);
  }
}
