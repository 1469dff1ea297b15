/** The multi-line renderer: what `refreshMultiLine` writes, and what that leaves on the terminal. */
module MultiLine {
  import opened Wrap
  import opened Terminal

  /** REFRESH_CLEAN and REFRESH_WRITE; REFRESH_ALL is both. */
  datatype Flags = Flags(clean: bool, write: bool)

  const CLEAN := Flags(true, false)
  const WRITE := Flags(false, true)
  const ALL := Flags(true, true)

  // ---------- what is written ----------

  /** At an exact multiple of the width the cursor at the end of the line needs one more row. */
  predicate NeedsNewline(cols: Positive, plen: nat, len: nat, pos: nat) {
    pos > 0 && pos == len && ColOf(cols, plen + pos) == 0
  }

  /** The row count a refresh remembers. */
  function NewRows(flags: Flags, cols: Positive, plen: nat, len: nat, pos: nat): nat {
    RowsUsed(cols, plen + len) + if flags.write && NeedsNewline(cols, plen, len, pos) then 1 else 0
  }

  function ClearUp(n: nat): seq<Out> {
    if n == 0 then [] else [Cr, EraseRight, Up(1)] + ClearUp(n - 1)
  }

  function CleanOut(cols: Positive, plen: nat, oldrows: nat, oldpos: nat): seq<Out> {
    var rpos := RowOf(cols, plen + oldpos) + 1;
    (if oldrows > rpos then [Down(oldrows - rpos)] else []) + (if oldrows > 1 then ClearUp(oldrows - 1) else [])
  }

  function PlaceOut(cols: Positive, i: nat, rows: nat): seq<Out> {
    var rpos := RowOf(cols, i) + 1;
    var col := ColOf(cols, i);
    (if rows > rpos then [Up(rows - rpos)] else []) + (if col > 0 then [Cr, Forward(col)] else [Cr])
  }

  function WriteOut(cols: Positive, prompt: string, buf: string, pos: nat): seq<Out> {
    Texts(prompt + buf)
    + (if NeedsNewline(cols, |prompt|, |buf|, pos) then [Lf, Cr] else [])
    + PlaceOut(cols, |prompt| + pos, NewRows(WRITE, cols, |prompt|, |buf|, pos))
  }

  function RefreshOut(flags: Flags, cols: Positive, prompt: string, buf: string, pos: nat, oldrows: nat, oldpos: nat)
    : seq<Out>
  {
    (if flags.clean then CleanOut(cols, |prompt|, oldrows, oldpos) else [])
    + (if flags.clean || flags.write then [Cr, EraseRight] else [])
    + (if flags.write then WriteOut(cols, prompt, buf, pos) else [])
  }

  // ---------- what it leaves on the screen ----------

  /** The tie between the terminal and the remembered `oldrows` and `oldpos`: going down
      `oldrows - rpos` rows reaches the last row in use, below which everything is blank. */
  ghost predicate Linked(t: Term, top: nat, plen: nat, oldrows: nat, oldpos: nat) {
    var rpos := RowOf(t.cols, plen + oldpos) + 1;
    var used := if oldrows > 1 then oldrows else 1;
    && t.row + (if oldrows > rpos then oldrows - rpos else 0) == top + used - 1
    && BlankFrom(t, top + used)
  }

  ghost predicate Cleared(t: Term, top: nat) {
    t.row == top && t.col == 0 && BlankFrom(t, top)
  }

  /** The cursor stands on the character numbered `i` of the text wrapped from row `top`. */
  ghost predicate CursorAt(t: Term, top: nat, i: nat) {
    t.row == top + RowOf(t.cols, i) && t.col == ColOf(t.cols, i)
  }

  /** What a refresh that writes leaves behind: exactly the wrapped prompt and buffer from row `top`
      down, the remembered values linked to the terminal, and the cursor on its character, unless
      the line is empty behind a non-empty prompt that fills its last row. */
  ghost predicate Refreshed(t: Term, u: Term, top: nat, prompt: string, buf: string, pos: nat) {
    && u.cols == t.cols && SameAbove(t, u, top) && ShowsText(u, top, prompt + buf)
    && Linked(u, top, |prompt|, NewRows(WRITE, t.cols, |prompt|, |buf|, pos), pos)
    && (CursorAt(u, top, |prompt| + pos) <==>
        !(buf == "" && prompt != "" && ColOf(t.cols, |prompt|) == 0))
  }

  lemma {:induction false} ClearUpErases(t: Term, top: nat, n: nat)
    requires t.row == top + n && BlankFrom(t, top + n + 1)
    ensures var u := Run(t, ClearUp(n) + [Cr, EraseRight]);
            u.cols == t.cols && Cleared(u, top) && SameAbove(t, u, top)
    decreases n
  {
    var last := [Cr, EraseRight];
    if n == 0 {
      assert ClearUp(0) + last == last;
      RunTwo(t, Cr, EraseRight);
    } else {
      var one := [Cr, EraseRight, Up(1)];
      var v := Step(Step(Step(t, Cr), EraseRight), Up(1));
      assert Run(t, one) == v by {
        assert one[1..] == [EraseRight, Up(1)] && one[1..][1..] == [Up(1)];
      }
      assert ClearUp(n) + last == one + (ClearUp(n - 1) + last);
      RunAppend(t, one, ClearUp(n - 1) + last);
      ClearUpErases(v, top, n - 1);
    }
  }

  /** On a screen just cleared, cleaning runs into the top of the screen and stays there. */
  lemma {:induction false} ClearUpOnBlank(t: Term, n: nat)
    requires t.row <= n && BlankFrom(t, 0)
    ensures var u := Run(t, ClearUp(n) + [Cr, EraseRight]);
            u.cols == t.cols && Cleared(u, 0)
    decreases n
  {
    var last := [Cr, EraseRight];
    if n == 0 {
      assert ClearUp(0) + last == last;
      RunTwo(t, Cr, EraseRight);
    } else {
      var one := [Cr, EraseRight, Up(1)];
      var v := Step(Step(Step(t, Cr), EraseRight), Up(1));
      assert Run(t, one) == v by {
        assert one[1..] == [EraseRight, Up(1)] && one[1..][1..] == [Up(1)];
      }
      assert ClearUp(n) + last == one + (ClearUp(n - 1) + last);
      RunAppend(t, one, ClearUp(n - 1) + last);
      ClearUpOnBlank(v, n - 1);
    }
  }

  lemma CleanErases(t: Term, top: nat, plen: nat, oldrows: nat, oldpos: nat)
    requires Linked(t, top, plen, oldrows, oldpos)
    ensures var u := Run(t, CleanOut(t.cols, plen, oldrows, oldpos) + [Cr, EraseRight]);
            u.cols == t.cols && Cleared(u, top) && SameAbove(t, u, top)
  {
    var rpos := RowOf(t.cols, plen + oldpos) + 1;
    var down := if oldrows > rpos then [Down(oldrows - rpos)] else [];
    var n := if oldrows > 1 then oldrows - 1 else 0;
    var rest := ClearUp(n) + [Cr, EraseRight];
    assert CleanOut(t.cols, plen, oldrows, oldpos) + [Cr, EraseRight] == down + rest;
    RunAppend(t, down, rest);
    ClearUpErases(Run(t, down), top, n);
  }

  lemma PlaceMoves(t: Term, i: nat, rows: nat)
    ensures var u := Run(t, PlaceOut(t.cols, i, rows));
            var rpos := RowOf(t.cols, i) + 1;
            && u.cols == t.cols && u.cell == t.cell && u.col == ColOf(t.cols, i)
            && u.row == if rows <= rpos then t.row else if rows - rpos <= t.row then t.row - (rows - rpos) else 0
  {
    var rpos := RowOf(t.cols, i) + 1;
    var col := ColOf(t.cols, i);
    var up := if rows > rpos then [Up(rows - rpos)] else [];
    var toCol := if col > 0 then [Cr, Forward(col)] else [Cr];
    RunAppend(t, up, toCol);
    if rows > rpos {
      RunOne(t, Up(rows - rpos));
    }
    var v := Run(t, up);
    if col > 0 {
      RunTwo(v, Cr, Forward(col));
    } else {
      RunOne(v, Cr);
    }
  }

  /** Row arithmetic at the end of the text: the row the terminal is in after printing, and after
      the extra newline, is the last of the rows the refresh counted. */
  lemma RowsCounted(cols: Positive, plen: nat, len: nat, pos: nat)
    requires pos <= len
    ensures var rows := NewRows(WRITE, cols, plen, len, pos);
            && (plen + len > 0 ==> RowsUsed(cols, plen + len) == RowOf(cols, plen + len - 1) + 1)
            && (plen + len == 0 ==> rows == 0)
            && (len > 0 ==> RowOf(cols, plen + pos) + 1 <= rows)
            && (len == 0 && ColOf(cols, plen) != 0 ==> rows == RowOf(cols, plen) + 1)
            && (len == 0 && ColOf(cols, plen) == 0 ==> rows == RowOf(cols, plen))
  {
    RowsUsedIsLastRow(cols, plen + len);
    if pos < len {
      RowMono(cols, plen + pos, plen + len - 1);
    }
  }

  /** The row the terminal is in once the text, and the newline if any, are written. */
  lemma TextWritten(t: Term, top: nat, prompt: string, buf: string, pos: nat)
    requires Cleared(t, top) && pos <= |buf|
    ensures var nl := if NeedsNewline(t.cols, |prompt|, |buf|, pos) then [Lf, Cr] else [];
            var rows := NewRows(WRITE, t.cols, |prompt|, |buf|, pos);
            var u := Run(t, Texts(prompt + buf) + nl);
            && u.cols == t.cols && SameAbove(t, u, top) && ShowsText(u, top, prompt + buf)
            && u.row == top + if rows > 0 then rows - 1 else 0
  {
    var text := prompt + buf;
    var nl := if NeedsNewline(t.cols, |prompt|, |buf|, pos) then [Lf, Cr] else [];
    RunAppend(t, Texts(text), nl);
    PrintOnBlank(t, top, text);
    var v := Run(t, Texts(text));
    if nl != [] {
      RunTwo(v, Lf, Cr);
    }
    RowsCounted(t.cols, |prompt|, |buf|, pos);
  }

  /** From the last row written, going up `rows - rpos` rows reaches the row of the cursor. */
  lemma GoUpReaches(cols: Positive, plen: nat, len: nat, pos: nat)
    requires pos <= len
    ensures var rows := NewRows(WRITE, cols, plen, len, pos);
            var rpos := RowOf(cols, plen + pos) + 1;
            var last := if rows > 0 then rows - 1 else 0;
            && rows >= RowsUsed(cols, plen + len)
            && (rows > rpos ==> rows - rpos <= last)
            && ((if rows > rpos then rpos - 1 else last) == RowOf(cols, plen + pos) <==>
                !(len == 0 && plen > 0 && ColOf(cols, plen) == 0))
  {
    RowsCounted(cols, plen, len, pos);
  }

  /** Writing on a cleared area shows exactly prompt and buffer. */
  lemma WriteShows(t: Term, top: nat, prompt: string, buf: string, pos: nat)
    requires Cleared(t, top) && pos <= |buf|
    ensures Refreshed(t, Run(t, WriteOut(t.cols, prompt, buf, pos)), top, prompt, buf, pos)
  {
    var rows := NewRows(WRITE, t.cols, |prompt|, |buf|, pos);
    var nl := if NeedsNewline(t.cols, |prompt|, |buf|, pos) then [Lf, Cr] else [];
    var written := Texts(prompt + buf) + nl;
    var v := Run(t, written);
    assert v.cols == t.cols by { TextWritten(t, top, prompt, buf, pos); }
    var place := PlaceOut(t.cols, |prompt| + pos, rows);
    assert WriteOut(t.cols, prompt, buf, pos) == written + place;
    RunAppend(t, written, place);
    TextWritten(t, top, prompt, buf, pos);
    Placed(t, v, top, prompt, buf, pos);
  }

  lemma Placed(t: Term, v: Term, top: nat, prompt: string, buf: string, pos: nat)
    requires pos <= |buf| && v.cols == t.cols && SameAbove(t, v, top) && ShowsText(v, top, prompt + buf)
    requires var rows := NewRows(WRITE, t.cols, |prompt|, |buf|, pos);
             v.row == top + if rows > 0 then rows - 1 else 0
    ensures var rows := NewRows(WRITE, t.cols, |prompt|, |buf|, pos);
            Refreshed(t, Run(v, PlaceOut(t.cols, |prompt| + pos, rows)), top, prompt, buf, pos)
  {
    hide ShowsText, SameAbove, BlankFrom, NewRows, RowOf, ColOf, RowsUsed, Run;
    var rows := NewRows(WRITE, t.cols, |prompt|, |buf|, pos);
    var used := if rows > 1 then rows else 1;
    PlaceMoves(v, |prompt| + pos, rows);
    GoUpReaches(t.cols, |prompt|, |buf|, pos);
    BlankBelow(v, top, prompt + buf, used);
    CursorMoved(t, v, Run(v, PlaceOut(t.cols, |prompt| + pos, rows)), top, prompt + buf, used);
  }

  lemma CursorMoved(t: Term, v: Term, u: Term, top: nat, text: string, used: nat)
    requires t.cols == v.cols == u.cols && u.cell == v.cell
    requires SameAbove(t, v, top) && ShowsText(v, top, text) && BlankFrom(v, top + used)
    ensures SameAbove(t, u, top) && ShowsText(u, top, text) && BlankFrom(u, top + used)
  {}

  lemma BlankBelow(t: Term, top: nat, text: string, rows: nat)
    requires ShowsText(t, top, text) && rows >= RowsUsed(t.cols, |text|)
    ensures BlankFrom(t, top + rows)
  {
    TextEndsInRows(t.cols, text);
    forall r: nat, c: nat | top + rows <= r && c < t.cols
      ensures t.cell(r, c) == BLANK
    {
      assert t.cell(r, c) == Wrapped(t.cols, text, r - top, c);
    }
  }

  /** A text shows nothing below the rows it uses. */
  lemma TextEndsInRows(cols: Positive, text: string)
    ensures forall r: nat, c: nat :: c < cols && r >= RowsUsed(cols, |text|) ==> Wrapped(cols, text, r, c) == BLANK
  {
    forall r: nat, c: nat | c < cols && r >= RowsUsed(cols, |text|)
      ensures Wrapped(cols, text, r, c) == BLANK
    {
      RowsUsedIsLastRow(cols, |text|);
      if text != "" {
        IndexFromRow(cols, r, c, |text| - 1);
      }
    }
  }

  /** The refresh lemma: whatever was on the screen before, as long as it is linked to `oldrows`
      and `oldpos`, a full refresh leaves exactly the wrapped prompt and buffer. */
  lemma RefreshShows(t: Term, top: nat, prompt: string, buf: string, pos: nat, oldrows: nat, oldpos: nat)
    requires Linked(t, top, |prompt|, oldrows, oldpos) && pos <= |buf|
    ensures Refreshed(t, Run(t, RefreshOut(ALL, t.cols, prompt, buf, pos, oldrows, oldpos)), top, prompt, buf, pos)
  {
    var clean := CleanOut(t.cols, |prompt|, oldrows, oldpos) + [Cr, EraseRight];
    RunAppend(t, clean, WriteOut(t.cols, prompt, buf, pos));
    CleanErases(t, top, |prompt|, oldrows, oldpos);
    WriteShows(Run(t, clean), top, prompt, buf, pos);
  }

  lemma CleanFromHome(t: Term, plen: nat, oldrows: nat, oldpos: nat)
    requires t.row == 0 && BlankFrom(t, 0)
    ensures var u := Run(t, CleanOut(t.cols, plen, oldrows, oldpos) + [Cr, EraseRight]);
            u.cols == t.cols && Cleared(u, 0)
  {
    var rpos := RowOf(t.cols, plen + oldpos) + 1;
    var down := if oldrows > rpos then [Down(oldrows - rpos)] else [];
    var n := if oldrows > 1 then oldrows - 1 else 0;
    var rest := ClearUp(n) + [Cr, EraseRight];
    assert CleanOut(t.cols, plen, oldrows, oldpos) + [Cr, EraseRight] == down + rest;
    RunAppend(t, down, rest);
    ClearUpOnBlank(Run(t, down), n);
  }

  /** After the screen was cleared the remembered values no longer match the terminal, but going up
      stops at the top of the screen, so a full refresh draws the line there. */
  lemma RefreshAfterClear(t: Term, prompt: string, buf: string, pos: nat, oldrows: nat, oldpos: nat)
    requires pos <= |buf|
    ensures var out := [ClearScreen] + RefreshOut(ALL, t.cols, prompt, buf, pos, oldrows, oldpos);
            Refreshed(t, Run(t, out), 0, prompt, buf, pos)
  {
    var refresh := RefreshOut(ALL, t.cols, prompt, buf, pos, oldrows, oldpos);
    RunAppend(t, [ClearScreen], refresh);
    RunOne(t, ClearScreen);
    var v := Step(t, ClearScreen);
    var clean := CleanOut(t.cols, |prompt|, oldrows, oldpos) + [Cr, EraseRight];
    CleanFromHome(v, |prompt|, oldrows, oldpos);
    assert refresh == clean + WriteOut(t.cols, prompt, buf, pos);
    RunAppend(v, clean, WriteOut(t.cols, prompt, buf, pos));
    WriteShows(Run(v, clean), 0, prompt, buf, pos);
  }

  /** Hiding a linked line blanks everything from the prompt row down, whatever the buffer is now. */
  lemma HideClears(t: Term, top: nat, prompt: string, buf: string, pos: nat, oldrows: nat, oldpos: nat)
    requires Linked(t, top, |prompt|, oldrows, oldpos)
    ensures var u := Run(t, RefreshOut(CLEAN, t.cols, prompt, buf, pos, oldrows, oldpos));
            u.cols == t.cols && SameAbove(t, u, top) && Cleared(u, top)
  {
    var clean := CleanOut(t.cols, |prompt|, oldrows, oldpos) + [Cr, EraseRight];
    assert RefreshOut(CLEAN, t.cols, prompt, buf, pos, oldrows, oldpos) == clean;
    CleanErases(t, top, |prompt|, oldrows, oldpos);
  }

  /** Showing a hidden line again draws it from the row it was hidden at. */
  lemma ShowDraws(t: Term, top: nat, prompt: string, buf: string, pos: nat, oldrows: nat, oldpos: nat)
    requires Cleared(t, top) && pos <= |buf|
    ensures Refreshed(t, Run(t, RefreshOut(WRITE, t.cols, prompt, buf, pos, oldrows, oldpos)), top, prompt, buf, pos)
  {
    var start := [Cr, EraseRight];
    assert RefreshOut(WRITE, t.cols, prompt, buf, pos, oldrows, oldpos)
        == start + WriteOut(t.cols, prompt, buf, pos);
    RunAppend(t, start, WriteOut(t.cols, prompt, buf, pos));
    RunTwo(t, Cr, EraseRight);
    WriteShows(Run(t, start), top, prompt, buf, pos);
  }

  /** The prompt printed at the start of a session is linked to `oldrows == 0` and `oldpos == 0`
      exactly when it is no wider than the terminal. */
  lemma StartLinks(t: Term, top: nat, prompt: string)
    requires Cleared(t, top)
    ensures var u := Run(t, Texts(prompt));
            && u.cols == t.cols && SameAbove(t, u, top) && ShowsText(u, top, prompt)
            && (Linked(u, top, |prompt|, 0, 0) <==> |prompt| <= t.cols)
            && (CursorAt(u, top, |prompt|) <==> prompt == "" || ColOf(t.cols, |prompt|) != 0)
  {
    PrintOnBlank(t, top, prompt);
    TextEndsInRows(t.cols, prompt);
    RowsUsedIsLastRow(t.cols, |prompt|);
    if prompt != "" {
      NextPlace(t.cols, |prompt|);
    }
    if |prompt| <= t.cols {
      BlankBelow(Run(t, Texts(prompt)), top, prompt, 1);
    }
  }
}
