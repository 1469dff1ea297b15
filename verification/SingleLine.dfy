/** The single-line renderer: the window of the buffer `refreshSingleLine` shows, what it writes,
    and the one-character fast path of insertion. */
module SingleLine {
  import opened Wrap
  import opened Terminal
  import opened MultiLine

  function WindowStart(cols: Positive, plen: nat, pos: nat): nat {
    if plen + pos < cols then 0 else plen + pos + 1 - cols
  }

  function Window(cols: Positive, plen: nat, buf: string, pos: nat): (w: string)
    requires plen < cols && pos <= |buf|
    ensures |w| + plen <= cols
  {
    var start := WindowStart(cols, plen, pos);
    if |buf| - start <= cols - plen then buf[start..] else buf[start..start + (cols - plen)]
  }

  /** The cursor is in the row behind the prompt and `at` characters of the line. */
  predicate InRow(cols: Positive, plen: nat, at: nat) {
    plen + at < cols
  }

  /** The row can be made to show the cursor by leaving out characters of the line. */
  ghost predicate HasWindow(cols: Positive, plen: nat, pos: nat) {
    exists at: nat :: at <= pos && InRow(cols, plen, at)
  }

  lemma WindowIff(cols: Positive, plen: nat, pos: nat)
    ensures HasWindow(cols, plen, pos) <==> plen < cols
  {
    if plen < cols {
      assert InRow(cols, plen, 0);
    }
  }

  // size_t wraps around

  const SIZES: nat := 0x1_0000_0000_0000_0000

  function AsSize(i: int): nat
    requires 0 - SIZES <= i < SIZES
  {
    if i < 0 then i + SIZES else i
  }

  function SizeAdd(a: nat, b: nat): nat
    requires a < SIZES && b < SIZES
  {
    if a + b < SIZES then a + b else a + b - SIZES
  }

  function SizeDec(a: nat): nat {
    if a == 0 then SIZES - 1 else a - 1
  }

  /** The two trimming loops. They leave a window of the line with the cursor in it if and only if
      the prompt is narrower than the row. That window starts where `WindowStart` says and is as long
      as the row allows. With a wider prompt it starts behind the cursor, and the cursor's distance
      from its start wraps around. */
  method TrimWindow(cols: Positive, plen: nat, buf: string, pos: nat) returns (start: nat, len: nat, at: nat)
    requires pos <= |buf| && plen + |buf| < SIZES - 1 && cols < SIZES
    ensures start == WindowStart(cols, plen, pos) && at == AsSize(pos - start)
    ensures len == AsSize(if |buf| - start < cols - plen then |buf| - start else cols - plen)
    ensures start + len <= |buf| && at <= len <==> plen < cols
    ensures plen < cols ==>
              && start + at == pos && plen + at < cols
              && buf[start..start + len] == Window(cols, plen, buf, pos)
              && (start > 0 ==> plen + at == cols - 1) && (start + len < |buf| ==> plen + len == cols)
  {
    start, len, at := 0, |buf|, pos;
    while SizeAdd(plen, at) >= cols
      invariant start <= plen + pos && at == AsSize(pos - start) && len == AsSize(|buf| - start)
      invariant start > 0 ==> plen + pos - start >= cols - 1
      decreases plen + pos - start
    {
      start, len, at := start + 1, SizeDec(len), SizeDec(at);
    }
    ghost var n: int := |buf| - start;
    while SizeAdd(plen, len) > cols
      invariant 0 - plen <= n <= |buf| - start && len == AsSize(n)
      invariant n < |buf| - start ==> plen + n >= cols
      decreases plen + n
    {
      len, n := SizeDec(len), n - 1;
    }
    assert n == if |buf| - start < cols - plen then |buf| - start else cols - plen;
    Trimmed(cols, plen, buf, pos, start, n, at);
  }

  /** What the loops leave, read as a part of the line. */
  lemma Trimmed(cols: Positive, plen: nat, buf: string, pos: nat, start: nat, n: int, at: nat)
    requires pos <= |buf| && plen + |buf| < SIZES - 1 && cols < SIZES
    requires start == WindowStart(cols, plen, pos) && at == AsSize(pos - start)
    requires n == if |buf| - start < cols - plen then |buf| - start else cols - plen
    ensures start + AsSize(n) <= |buf| && at <= AsSize(n) <==> plen < cols
    ensures plen < cols ==>
              && 0 <= n <= |buf| - start && start + at == pos && plen + at < cols
              && buf[start..start + n] == Window(cols, plen, buf, pos)
              && (start > 0 ==> plen + at == cols - 1) && (start + n < |buf| ==> plen + n == cols)
  {}

  /** With a prompt that fills the row even the empty line is trimmed: what is to be written has
      2^64 - 1 characters. */
  method WideTrimFails() returns (start: nat, len: nat, at: nat)
    ensures start == 1 && len == at == SIZES - 1
  {
    start, len, at := TrimWindow(4, 4, "", 0);
  }

  function SingleOut(flags: Flags, cols: Positive, prompt: string, buf: string, pos: nat): seq<Out>
    requires |prompt| < cols && pos <= |buf|
  {
    [Cr]
    + (if flags.write then Texts(prompt + Window(cols, |prompt|, buf, pos)) else [])
    + [EraseRight]
    + (if flags.write then [Cr, Forward(|prompt| + pos - WindowStart(cols, |prompt|, pos))] else [])
  }

  /** A single-line refresh that writes rewrites the row in any case. */
  lemma SingleWriteIsAll(cols: Positive, prompt: string, buf: string, pos: nat)
    requires |prompt| < cols && pos <= |buf|
    ensures SingleOut(WRITE, cols, prompt, buf, pos) == SingleOut(ALL, cols, prompt, buf, pos)
  {}

  /** Row `row` shows exactly `text`, and the cursor is in that row. */
  ghost predicate ShowsRow(t: Term, row: nat, text: string) {
    t.row == row && forall c: nat :: c < t.cols ==> t.cell(row, c) == if c < |text| then text[c] else BLANK
  }

  ghost predicate SameElsewhere(t: Term, u: Term, row: nat) {
    forall r: nat, c: nat :: r != row && c < t.cols ==> u.cell(r, c) == t.cell(r, c)
  }

  ghost predicate SingleShown(t: Term, row: nat, prompt: string, buf: string, pos: nat)
    requires |prompt| < t.cols && pos <= |buf|
  {
    ShowsRow(t, row, prompt + Window(t.cols, |prompt|, buf, pos))
  }

  ghost predicate SingleCursor(t: Term, prompt: string, pos: nat) {
    t.col + WindowStart(t.cols, |prompt|, pos) == |prompt| + pos
  }

  /** Printing text that fits the rest of the row. */
  lemma {:induction false} PrintInRow(t: Term, s: string)
    requires t.col + |s| <= t.cols
    ensures var u := Run(t, Texts(s));
            && u.cols == t.cols && u.row == t.row && u.col == t.col + |s|
            && forall r: nat, c: nat :: c < t.cols ==>
                 u.cell(r, c) == if r == t.row && t.col <= c < t.col + |s| then s[c - t.col] else t.cell(r, c)
    decreases |s|
  {
    if s != [] {
      assert Texts(s)[0] == Text(s[0]) && Texts(s)[1..] == Texts(s[1..]);
      PrintInRow(Step(t, Text(s[0])), s[1..]);
    }
  }

  /** A full single-line refresh shows prompt and window whatever the row showed before, touches no
      other row, and puts the cursor on its character unless that is column 0 of a wider row:
      `ESC[0C` moves one column, not none. */
  lemma RefreshShowsRow(t: Term, prompt: string, buf: string, pos: nat)
    requires |prompt| < t.cols && pos <= |buf|
    ensures var u := Run(t, SingleOut(ALL, t.cols, prompt, buf, pos));
            && u.cols == t.cols && SameElsewhere(t, u, t.row)
            && SingleShown(u, t.row, prompt, buf, pos)
            && (SingleCursor(u, prompt, pos) <==> |prompt| + pos > 0 || t.cols == 1)
  {
    hide Run, Window, WindowStart;
    var text := prompt + Window(t.cols, |prompt|, buf, pos);
    var at := |prompt| + pos - WindowStart(t.cols, |prompt|, pos);
    CursorColumn(t.cols, |prompt|, pos);
    assert SingleOut(ALL, t.cols, prompt, buf, pos) == [Cr] + Texts(text) + [EraseRight] + [Cr, Forward(at)];
    RowRewritten(t, text, at);
  }

  /** A row rewritten with `text`, and the cursor moved `at` columns from its start. */
  lemma RowRewritten(t: Term, text: string, at: nat)
    requires |text| <= t.cols
    ensures var u := Run(t, [Cr] + Texts(text) + [EraseRight] + [Cr, Forward(at)]);
            && u.cols == t.cols && SameElsewhere(t, u, t.row) && ShowsRow(u, t.row, text)
            && u.col == if Count(at) < t.cols then Count(at) else t.cols - 1
  {
    hide Run;
    RunOne(t, Cr);
    var v := Step(t, Cr);
    RunAppend(t, [Cr], Texts(text));
    PrintInRow(v, text);
    var w := Run(v, Texts(text));
    RunOne(w, EraseRight);
    RunAppend(t, [Cr] + Texts(text), [EraseRight]);
    RunAppend(t, [Cr] + Texts(text) + [EraseRight], [Cr, Forward(at)]);
    RunTwo(Step(w, EraseRight), Cr, Forward(at));
  }

  lemma CursorColumn(cols: Positive, plen: nat, pos: nat)
    requires plen < cols
    ensures var at := plen + pos - WindowStart(cols, plen, pos);
            && 0 <= at < cols
            && ((if Count(at) < cols then Count(at) else cols - 1) == at <==> plen + pos > 0 || cols == 1)
  {}

  /** Hiding blanks the row and returns to its start. */
  lemma HideClearsRow(t: Term, prompt: string, buf: string, pos: nat)
    requires |prompt| < t.cols && pos <= |buf|
    ensures var u := Run(t, SingleOut(CLEAN, t.cols, prompt, buf, pos));
            u.cols == t.cols && SameElsewhere(t, u, t.row) && ShowsRow(u, t.row, "") && u.col == 0
  {
    assert SingleOut(CLEAN, t.cols, prompt, buf, pos) == [Cr, EraseRight];
    RunTwo(t, Cr, EraseRight);
  }

  ghost predicate SameScreen(t: Term, u: Term) {
    && t.cols == u.cols && t.row == u.row && t.col == u.col
    && forall r: nat, c: nat :: c < t.cols ==> u.cell(r, c) == t.cell(r, c)
  }

  /** The fast path of insertion: writing the one character leaves the very screen and cursor that
      redrawing the longer line would. */
  lemma FastPath(t: Term, prompt: string, buf: string, ch: char)
    requires |prompt| + |buf| + 1 < t.cols
    requires SingleShown(t, t.row, prompt, buf, |buf|) && SingleCursor(t, prompt, |buf|)
    ensures SameScreen(Run(t, [Text(ch)]), Run(t, SingleOut(ALL, t.cols, prompt, buf + [ch], |buf| + 1)))
  {
    var u := Run(t, SingleOut(ALL, t.cols, prompt, buf + [ch], |buf| + 1));
    RefreshShowsRow(t, prompt, buf + [ch], |buf| + 1);
    RunOne(t, Text(ch));
    assert prompt + Window(t.cols, |prompt|, buf + [ch], |buf| + 1)
        == (prompt + Window(t.cols, |prompt|, buf, |buf|)) + [ch];
  }
}
