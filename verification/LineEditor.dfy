/** The line editor itself: the buffer edited in place, the cursor, the history in focus, and the
    output. Every method is proved to do what its function in Editor.dfy says. */
module LineEditors {
  import opened Wrap
  import opened Terminal
  import opened MultiLine
  import opened SingleLine
  import opened Zippers
  import opened CStrings
  import opened Editor
  import opened Histories
  import opened Session

  /** memmove within one array: the two ranges may overlap, so the direction matters. */
  method MemMove(a: array<char>, dst: nat, src: nat, n: nat)
    requires dst + n <= a.Length && src + n <= a.Length
    modifies a
    ensures a[..dst] == old(a[..dst]) && a[dst..dst + n] == old(a[src..src + n]) && a[dst + n..] == old(a[dst + n..])
  {
    if dst <= src {
      MoveDown(a, dst, src, n);
    } else {
      MoveUp(a, dst, src, n);
    }
  }

  method MoveDown(a: array<char>, dst: nat, src: nat, n: nat)
    requires dst <= src && src + n <= a.Length
    modifies a
    ensures a[..dst] == old(a[..dst]) && a[dst..dst + n] == old(a[src..src + n]) && a[dst + n..] == old(a[dst + n..])
  {
    ghost var was := a[..];
    for j := 0 to n
      invariant forall i :: dst <= i < dst + j ==> a[i] == was[i - dst + src]
      invariant forall i :: 0 <= i < dst || dst + j <= i < a.Length ==> a[i] == was[i]
    {
      a[dst + j] := a[src + j];
    }
    Moved(was, a[..], dst, src, n);
  }

  method MoveUp(a: array<char>, dst: nat, src: nat, n: nat)
    requires src < dst && dst + n <= a.Length
    modifies a
    ensures a[..dst] == old(a[..dst]) && a[dst..dst + n] == old(a[src..src + n]) && a[dst + n..] == old(a[dst + n..])
  {
    ghost var was := a[..];
    for j := n downto 0
      invariant forall i :: dst + j <= i < dst + n ==> a[i] == was[i - dst + src]
      invariant forall i :: 0 <= i < dst + j || dst + n <= i < a.Length ==> a[i] == was[i]
    {
      a[dst + j] := a[src + j];
    }
    Moved(was, a[..], dst, src, n);
  }

  lemma Moved(was: seq<char>, now: seq<char>, dst: nat, src: nat, n: nat)
    requires |was| == |now| && dst + n <= |was| && src + n <= |was|
    requires forall i :: dst <= i < dst + n ==> now[i] == was[i - dst + src]
    requires forall i :: 0 <= i < dst || dst + n <= i < |was| ==> now[i] == was[i]
    ensures now[..dst] == was[..dst] && now[dst..dst + n] == was[src..src + n] && now[dst + n..] == was[dst + n..]
  {}

  /** First step of a multi-line refresh: to the last row in use, then clear every row going up. */
  method GoDownAndClear(cols: Positive, plen: nat, oldrows: nat, oldpos: nat) returns (ab: seq<Out>)
    ensures ab == CleanOut(cols, plen, oldrows, oldpos)
  {
    var rpos := (plen + oldpos + cols) / cols;
    RowColDivMod(cols, plen + oldpos + cols);
    ab := [];
    if oldrows > rpos {
      ab := ab + [Down(oldrows - rpos)];
    }
    ghost var first := ab;
    var j := 0;
    while j < oldrows - 1
      invariant 0 <= j && (j <= oldrows - 1 || j == 0)
      invariant ab == first + ClearUp(j)
    {
      ClearUpSnoc(j);
      ab := ab + [Cr, EraseRight, Up(1)];
      j := j + 1;
    }
  }

  /** Last step: prompt and text, the extra row at an exact multiple of the width, the cursor. */
  method WriteAndPlace(cols: Positive, prompt: string, text: string, at: nat) returns (ab: seq<Out>, rows: nat)
    ensures ab == WriteOut(cols, prompt, text, at)
    ensures rows == NewRows(WRITE, cols, |prompt|, |text|, at)
  {
    var plen := |prompt|;
    rows := (plen + |text| + cols - 1) / cols;
    var rpos2 := (plen + at + cols) / cols;
    var col := (plen + at) % cols;
    assert rows == RowsUsed(cols, plen + |text|) by { RowColDivMod(cols, plen + |text| + cols - 1); }
    assert rpos2 == RowOf(cols, plen + at) + 1 by { RowColDivMod(cols, plen + at + cols); }
    assert col == ColOf(cols, plen + at) by { RowColDivMod(cols, plen + at); }
    hide RowOf, ColOf, RowsUsed;
    ab := Texts(prompt);
    ab := ab + Texts(text);
    assert ab == Texts(prompt + text);
    if at > 0 && at == |text| && col == 0 {
      ab := ab + [Lf];
      ab := ab + [Cr];
      assert ab == Texts(prompt + text) + [Lf, Cr];
      rows := rows + 1;
    }
    ghost var written := ab;
    if rows > rpos2 {
      ab := ab + [Up(rows - rpos2)];
    }
    if col > 0 {
      ab := ab + [Cr, Forward(col)];
    } else {
      ab := ab + [Cr];
    }
    assert ab == written + PlaceOut(cols, plen + at, rows);
  }

  class LineEditor {
    const prompt: string
    const cols: Positive
    const multi: bool
    const completer: Completer
    const buflen: Positive
    const buf: array<char>
    const history: History

    var len: nat
    var pos: nat
    var oldpos: nat
    var oldrows: nat
    var inCompletion: bool
    var completionIdx: nat
    var historyIndex: int
    var ofd: seq<Out>

    function Cfg(): Config {
      Config(prompt, cols, buflen, multi, completer)
    }

    /** Prompt, buffer and width have sizes. */
    predicate SizesFit() {
      |prompt| + buflen < SIZES - 1 && cols < SIZES
    }

    /** The buffer holds a C string of `len` characters; there is one more byte than `buflen`. */
    ghost predicate BufferValid()
      reads this, buf
    {
      SizesFit() && buf.Length == buflen + 1 && pos <= len <= buflen && buf[len] == NUL && NUL !in buf[..len]
    }

    ghost predicate Valid()
      reads this, buf, history, history.slots
    {
      && Cfg().Valid() && BufferValid()
      && history.Valid() && history.slots != null && historyIndex >= 0
      && forall i :: 0 <= i < history.len ==> NUL !in history.slots[i]
    }

    /** A session is on: the focus is on a line of the history. */
    ghost predicate Active()
      reads this, buf, history, history.slots
    {
      Valid() && historyIndex < history.len
    }

    ghost function State(): Line
      requires Valid()
      reads this, buf, history, history.slots
    {
      Line(Zipper(buf[..pos], buf[pos..len]), history.Lines(), historyIndex, oldrows, oldpos,
           inCompletion, completionIdx, ofd)
    }

    constructor (buf: array<char>, prompt: string, cols: Positive, multi: bool, completer: Completer, history: History)
      requires buf.Length >= 2
      ensures Cfg() == Config(prompt, cols, buf.Length - 1, multi, completer)
      ensures this.history == history && this.buf == buf && ofd == []
    {
      this.buf, this.buflen, this.prompt := buf, buf.Length - 1, prompt;
      this.cols, this.multi, this.completer, this.history := cols, multi, completer, history;
      ofd := [];
    }

    /** Starts a session: the newest history entry stands for the line about to be edited. */
    method EditStart()
      requires Cfg().Valid() && SizesFit() && buf.Length == buflen + 1
      requires history.Valid() && history.maxLen >= 1 && forall l :: l in history.Lines() ==> NUL !in l
      modifies this, buf, history, history.slots
      ensures Active() && (history.slots == old(history.slots) || fresh(history.slots))
      ensures State() == Editor.Start(Cfg(), AddLine(old(history.Lines()), "", history.maxLen))
                         .(out := old(ofd) + Texts(prompt))
    {
      hide AddLine, Histories.Latest, Config.Valid;
      ResetFields();
      var added := history.Add("");
      assert forall i :: 0 <= i < history.len ==> history.slots[i] == history.Lines()[i];
      ofd := ofd + Texts(prompt);
      assert buf[..pos] == "" && buf[pos..len] == "";
    }

    method ResetFields()
      requires SizesFit() && buf.Length == buflen + 1
      modifies this, buf
      ensures BufferValid() && pos == len == oldpos == oldrows == 0 && historyIndex == 0
      ensures !inCompletion && completionIdx == 0 && ofd == old(ofd)
    {
      inCompletion, completionIdx := false, 0;
      oldpos, pos, len := 0, 0, 0;
      oldrows, historyIndex := 0, 0;
      buf[0] := NUL;
    }

    // ---------- refreshing ----------

    method RefreshMultiLine(flags: Flags, text: string, at: nat)
      modifies this`oldrows, this`oldpos, this`ofd
      ensures oldrows == NewRows(flags, cols, |prompt|, |text|, at) && oldpos == at
      ensures ofd == old(ofd) + RefreshOut(flags, cols, prompt, text, at, old(oldrows), old(oldpos))
    {
      var plen := |prompt|;
      var rows := (plen + |text| + cols - 1) / cols;
      var wasRows := oldrows;
      RowColDivMod(cols, plen + |text| + cols - 1);
      oldrows := rows;
      var ab: seq<Out> := [];
      if flags.clean {
        ab := GoDownAndClear(cols, plen, wasRows, oldpos);
      }
      if flags.clean || flags.write {
        ab := ab + [Cr, EraseRight];
      }
      if flags.write {
        var written;
        written, rows := WriteAndPlace(cols, prompt, text, at);
        ab := ab + written;
        if rows > oldrows {
          oldrows := rows;
        }
      }
      oldpos := at;
      ofd := ofd + ab;
    }

    method RefreshSingleLine(flags: Flags, text: string, at: nat)
      requires |prompt| < cols < SIZES && at <= |text| && |prompt| + |text| < SIZES - 1
      modifies this`ofd
      ensures ofd == old(ofd) + SingleOut(flags, cols, prompt, text, at)
    {
      var start, n, p := TrimWindow(cols, |prompt|, text, at);
      var ab := [Cr];
      if flags.write {
        ab := ab + Texts(prompt);
        ab := ab + Texts(text[start..start + n]);
        assert ab == [Cr] + Texts(prompt + text[start..start + n]);
      }
      ab := ab + [EraseRight];
      if flags.write {
        ab := ab + [Cr, Forward(p + |prompt|)];
      }
      ofd := ofd + ab;
    }

    /** Redraws the line as `text` with the cursor at `at`; the buffer stays what it is. */
    method RefreshWithFlags(flags: Flags, text: string, at: nat)
      requires Valid() && at <= |text| <= buflen
      modifies this`oldrows, this`oldpos, this`ofd
      ensures Valid() && State() == Refresh(Cfg(), old(State()), flags, Zipper(text[..at], text[at..]))
    {
      assert text[..at] + text[at..] == text;
      if multi {
        RefreshMultiLine(flags, text, at);
      } else {
        RefreshSingleLine(flags, text, at);
      }
    }

    method RefreshLine()
      requires Valid()
      modifies this`oldrows, this`oldpos, this`ofd
      ensures Valid() && State() == Refresh(Cfg(), old(State()), ALL, old(State()).z)
    {
      var text := buf[..len];
      assert text[..pos] == buf[..pos] && text[pos..] == buf[pos..len];
      RefreshWithFlags(ALL, text, pos);
    }

    // ---------- editing ----------

    method EditInsert(c: char)
      requires Active() && c != NUL
      modifies this, buf
      ensures Active() && State() == Insert(Cfg(), old(State()), c)
    {
      hide Refresh, Config.Valid, History.Valid;
      if len < buflen {
        if len == pos {
          PutLast(c);
          if !multi && |prompt| + len < cols {
            ofd := ofd + [Text(c)];
          } else {
            RefreshLine();
          }
        } else {
          OpenGap(c);
          RefreshLine();
        }
      }
    }

    method PutLast(c: char)
      requires BufferValid() && c != NUL && pos == len < buflen
      modifies this`len, this`pos, buf
      ensures BufferValid() && pos == len == old(len) + 1
      ensures Zipper(buf[..pos], buf[pos..len]) == old(Zipper(buf[..pos], buf[pos..len])).Insert(c)
    {
      buf[pos] := c;
      pos := pos + 1;
      len := len + 1;
      buf[len] := NUL;
      assert buf[..pos] == old(buf[..pos]) + [c] && buf[pos..len] == old(buf[pos..len]);
    }

    /** Shifts the rest of the line by one and puts `c` in the gap. */
    method OpenGap(c: char)
      requires BufferValid() && c != NUL && pos < len < buflen
      modifies this`len, this`pos, buf
      ensures BufferValid() && Zipper(buf[..pos], buf[pos..len]) == old(Zipper(buf[..pos], buf[pos..len])).Insert(c)
    {
      MemMove(buf, pos + 1, pos, len - pos);
      buf[pos] := c;
      len := len + 1;
      pos := pos + 1;
      buf[len] := NUL;
      assert buf[..pos] == old(buf[..pos]) + [c] && buf[pos..len] == old(buf[pos..len]);
      assert NUL !in buf[..len] by {
        assert buf[..len] == buf[..pos] + buf[pos..len];
      }
    }

    method EditMoveLeft()
      requires Active()
      modifies this
      ensures Active() && var s := old(State());
              State() == Perform(Cfg(), s, EditLine(s.z.left != "", s.z.MoveLeft()))
    {
      hide Refresh, Config.Valid, History.Valid;
      if pos > 0 {
        pos := pos - 1;
        assert Zipper(buf[..pos], buf[pos..len]) == old(Zipper(buf[..pos], buf[pos..len])).MoveLeft();
        RefreshLine();
      }
    }

    method EditMoveRight()
      requires Active()
      modifies this
      ensures Active() && var s := old(State());
              State() == Perform(Cfg(), s, EditLine(s.z.right != "", s.z.MoveRight()))
    {
      hide Refresh, Config.Valid, History.Valid;
      if pos != len {
        pos := pos + 1;
        assert Zipper(buf[..pos], buf[pos..len]) == old(Zipper(buf[..pos], buf[pos..len])).MoveRight();
        RefreshLine();
      }
    }

    method EditMoveHome()
      requires Active()
      modifies this
      ensures Active() && var s := old(State());
              State() == Perform(Cfg(), s, EditLine(s.z.left != "", s.z.Home()))
    {
      hide Refresh, Config.Valid, History.Valid;
      if pos != 0 {
        pos := 0;
        assert buf[0..len] == old(buf[..pos]) + old(buf[pos..len]) && buf[..0] == "";
        RefreshLine();
      }
    }

    method EditMoveEnd()
      requires Active()
      modifies this
      ensures Active() && var s := old(State());
              State() == Perform(Cfg(), s, EditLine(s.z.right != "", s.z.End()))
    {
      hide Refresh, Config.Valid, History.Valid;
      if pos != len {
        pos := len;
        assert buf[..len] == old(buf[..pos]) + old(buf[pos..len]) && buf[len..len] == "";
        RefreshLine();
      }
    }

    method EditDelete()
      requires Active()
      modifies this, buf
      ensures Active() && var s := old(State());
              State() == Perform(Cfg(), s, EditLine(s.z.right != "", s.z.Delete()))
    {
      hide Refresh, Config.Valid, History.Valid;
      if len > 0 && pos < len {
        CloseAfter();
        RefreshLine();
      }
    }

    /** Moves the rest of the line over the character right of the cursor. */
    method CloseAfter()
      requires BufferValid() && pos < len
      modifies this`len, buf
      ensures BufferValid() && Zipper(buf[..pos], buf[pos..len]) == old(Zipper(buf[..pos], buf[pos..len])).Delete()
    {
      MemMove(buf, pos, pos + 1, len - pos - 1);
      len := len - 1;
      buf[len] := NUL;
      assert buf[..pos] == old(buf[..pos]) && buf[pos..len] == old(buf[pos + 1..len]);
      assert NUL !in buf[..len] by {
        assert buf[..len] == buf[..pos] + buf[pos..len];
      }
    }

    method EditBackspace()
      requires Active()
      modifies this, buf
      ensures Active() && var s := old(State());
              State() == Perform(Cfg(), s, EditLine(s.z.left != "", s.z.Backspace()))
    {
      hide Refresh, Config.Valid, History.Valid;
      if pos > 0 && len > 0 {
        CloseBefore();
        RefreshLine();
      }
    }

    /** Moves the rest of the line over the character left of the cursor. */
    method CloseBefore()
      requires BufferValid() && pos > 0
      modifies this`len, this`pos, buf
      ensures BufferValid() && Zipper(buf[..pos], buf[pos..len]) == old(Zipper(buf[..pos], buf[pos..len])).Backspace()
    {
      MemMove(buf, pos - 1, pos, len - pos);
      pos := pos - 1;
      len := len - 1;
      buf[len] := NUL;
      assert buf[..pos] == old(buf[..pos - 1]) && buf[pos..len] == old(buf[pos..len]);
      assert NUL !in buf[..len] by {
        assert buf[..len] == buf[..pos] + buf[pos..len];
      }
    }

    method EditTranspose()
      requires Active()
      modifies this, buf
      ensures Active() && var s := old(State());
              State() == Perform(Cfg(), s, EditLine(s.z.left != "" && s.z.right != "", s.z.Transpose()))
    {
      hide Refresh, Config.Valid, History.Valid;
      if pos > 0 && pos < len {
        SwapAround();
        RefreshLine();
      }
    }

    method SwapAround()
      requires BufferValid() && 0 < pos < len
      modifies this`pos, buf
      ensures BufferValid() && Zipper(buf[..pos], buf[pos..len]) == old(Zipper(buf[..pos], buf[pos..len])).Transpose()
    {
      var aux := buf[pos - 1];
      buf[pos - 1] := buf[pos];
      buf[pos] := aux;
      if pos != len - 1 {
        pos := pos + 1;
      }
    }

    /** Moves the cursor back over spaces, or over non-spaces. */
    method StepBack(spaces: bool)
      requires pos <= buf.Length
      modifies this`pos
      ensures pos <= old(pos) && buf[..pos] == DropTail(old(buf[..pos]), spaces)
    {
      ghost var left := buf[..pos];
      assert left[..pos] == left;
      while pos > 0 && (buf[pos - 1] == ' ') == spaces
        invariant pos <= |left| && DropTail(left, spaces) == DropTail(left[..pos], spaces)
      {
        assert left[..pos][..pos - 1] == left[..pos - 1];
        pos := pos - 1;
      }
      assert left[..pos] == buf[..pos];
    }

    method EditDeletePrevWord()
      requires Active()
      modifies this, buf
      ensures Active() && var s := old(State());
              State() == Perform(Cfg(), s, EditLine(true, s.z.DeletePrevWord()))
    {
      hide Refresh, Config.Valid, History.Valid;
      var oldPos := pos;
      StepBack(true);
      StepBack(false);
      CloseGap(oldPos);
      RefreshLine();
    }

    /** Moves what is right of `from`, terminator included, to the cursor. */
    method CloseGap(from: nat)
      requires BufferValid() && pos <= from <= len
      modifies this`len, buf
      ensures BufferValid() && buf[..pos] == old(buf[..pos]) && buf[pos..len] == old(buf[from..len])
    {
      var n := len - from + 1;
      MemMove(buf, pos, from, n);
      len := len - (from - pos);
      assert buf[pos..len] == buf[pos..pos + n][..n - 1] && buf[len] == buf[pos..pos + n][n - 1];
      assert buf[..pos] == old(buf[..pos]) && buf[pos..len] == old(buf[from..len]);
      assert NUL !in buf[..len] by {
        assert buf[..len] == buf[..pos] + buf[pos..len];
      }
    }

    method KillLine()
      requires Active()
      modifies this, buf
      ensures Active() && State() == Perform(Cfg(), old(State()), EditLine(true, Zipper("", "")))
    {
      hide Refresh, Config.Valid, History.Valid;
      buf[0] := NUL;
      pos, len := 0, 0;
      assert buf[..pos] == "" && buf[pos..len] == "";
      RefreshLine();
    }

    method KillToEnd()
      requires Active()
      modifies this, buf
      ensures Active() && var s := old(State()); State() == Perform(Cfg(), s, EditLine(true, s.z.KillToEnd()))
    {
      hide Refresh, Config.Valid, History.Valid;
      buf[pos] := NUL;
      len := pos;
      assert buf[..pos] == old(buf[..pos]) && buf[pos..len] == "";
      RefreshLine();
    }

    // ---------- history ----------

    /** strncpy of at most `buflen` bytes, the last of them then set to NUL. */
    method Load(entry: string)
      requires BufferValid() && NUL !in entry
      modifies this`len, this`pos, buf
      ensures BufferValid() && pos == len && buf[..len] == Reload(Cfg(), entry)
    {
      ghost var loaded := Reload(Cfg(), entry);
      for i := 0 to buflen
        invariant forall j :: 0 <= j < i ==> buf[j] == if j < |entry| then entry[j] else NUL
      {
        buf[i] := if i < |entry| then entry[i] else NUL;
      }
      buf[buflen - 1] := NUL;
      assert buf[..|loaded|] == loaded;
      CStrIs(buf[..], |loaded|);
      len := |CStr(buf[..])|;
      pos := len;
    }

    /** Puts a copy of the line into the history slot in focus. */
    method StoreLine()
      requires Active()
      modifies history.slots
      ensures Active() && var s := old(State()); State() == s.(hist := s.hist[Slot(s) := s.z.Text()])
    {
      hide Config.Valid;
      var line := ReadLine();
      assert NUL !in line by {
        assert buf[..len] == buf[..pos] + buf[pos..len];
      }
      history.slots[history.len - 1 - historyIndex] := line;
    }

    method EditHistoryNext(up: bool)
      requires Active()
      modifies this, buf, history.slots
      ensures Active() && State() == HistoryMove(Cfg(), old(State()), up)
    {
      hide Refresh, Config.Valid, Reload;
      if history.len > 1 {
        StoreLine();
        var moved := MoveFocus(up);
        if !moved {
          return;
        }
        LoadFocus();
        RefreshLine();
      }
    }

    /** The focus moves, or stays where it is at either end. */
    method MoveFocus(up: bool) returns (moved: bool)
      requires Active()
      modifies this`historyIndex
      ensures Active() && var s := old(State());
              && moved == (if up then s.idx < |s.hist| - 1 else s.idx > 0)
              && State() == if !moved then s else s.(idx := if up then s.idx + 1 else s.idx - 1)
    {
      hide Config.Valid;
      historyIndex := historyIndex + if up then 1 else -1;
      if historyIndex < 0 {
        historyIndex := 0;
        return false;
      } else if historyIndex >= history.len {
        historyIndex := history.len - 1;
        return false;
      }
      moved := true;
    }

    /** The entry in focus becomes the line. */
    method LoadFocus()
      requires Active()
      modifies this`len, this`pos, buf
      ensures Active() && var s := old(State()); State() == s.(z := Zipper(Reload(Cfg(), s.hist[Slot(s)]), ""))
    {
      hide Config.Valid, Reload;
      Load(history.slots[history.len - 1 - historyIndex]);
      assert buf[pos..len] == "";
    }

    // ---------- completion ----------

    /** snprintf of a candidate into the buffer, which stores the candidate's full length even when
        it was cut: the buffer stays well formed exactly when the candidate is shorter than `buflen`. */
    method TakeCandidate(cand: string)
      requires BufferValid() && NUL !in cand
      modifies this`len, this`pos, buf
      ensures len == pos == |cand|
      ensures BufferValid() <==> |cand| < buflen
      ensures |cand| < buflen ==> buf[..pos] == cand && buf[pos..len] == ""
    {
      var n := if |cand| < buflen then |cand| else buflen - 1;
      for i := 0 to n
        invariant forall j :: 0 <= j < i ==> buf[j] == cand[j]
      {
        buf[i] := cand[i];
      }
      buf[n] := NUL;
      len := |cand|;
      pos := len;
      assert |cand| < buflen ==> buf[..len] == cand;
      assert |cand| == buflen ==> buf[..len][n] == NUL;
    }

    method ReadCandidates() returns (cs: seq<string>)
      requires Active() && completer.Completer?
      ensures cs == Cfg().Candidates(State().z.Text())
      ensures forall i :: 0 <= i < |cs| ==> |cs[i]| < buflen && NUL !in cs[i]
    {
      var line := ReadLine();
      cs := completer.candidates(line);
      assert forall i :: 0 <= i < |cs| ==> cs[i] in cs;
    }

    method ChooseCandidate(cs: seq<string>, c: char) returns (left: char)
      requires Active() && cs == Cfg().Candidates(State().z.Text())
      requires forall i :: 0 <= i < |cs| ==> |cs[i]| < buflen && NUL !in cs[i]
      modifies this, buf
      ensures Active() && (State(), left) == Choose(Cfg(), old(State()), c)
    {
      hide Refresh, Config.Valid;
      left := c;
      if c == TAB {
        if !inCompletion {
          inCompletion := true;
          completionIdx := 0;
        } else {
          completionIdx := (completionIdx + 1) % (|cs| + 1);
        }
        left := NUL;
      } else if c == ESC {
        if completionIdx < |cs| {
          RefreshLine();
        }
        inCompletion := false;
        left := NUL;
      } else {
        if completionIdx < |cs| {
          TakeCandidate(cs[completionIdx]);
        }
        inCompletion := false;
      }
    }

    method CompleteLine(c: char) returns (left: char)
      requires Active() && completer.Completer?
      modifies this, buf
      ensures Active() && (State(), left) == Complete(Cfg(), old(State()), c)
    {
      hide Refresh, Config.Valid;
      var cs := ReadCandidates();
      if |cs| == 0 {
        inCompletion := false;
        return c;
      }
      left := ChooseCandidate(cs, c);
      RefreshVisible(ALL);
    }

    /** Draws the candidate previewed, or the line itself. */
    method RefreshVisible(flags: Flags)
      requires Active()
      modifies this`oldrows, this`oldpos, this`ofd
      ensures Active() && State() == Refresh(Cfg(), old(State()), flags, Visible(Cfg(), old(State())))
    {
      hide Refresh, Config.Valid;
      assert buf[..len][..pos] == buf[..pos] && buf[..len][pos..] == buf[pos..len];
      if inCompletion && completer.Completer? {
        var cs := ReadCandidates();
        if completionIdx < |cs| {
          var cand := cs[completionIdx];
          assert cand[..|cand|] == cand && cand[|cand|..] == "";
          RefreshWithFlags(flags, cand, |cand|);
          return;
        }
      }
      RefreshWithFlags(flags, buf[..len], pos);
    }

    method Hide()
      requires Active()
      modifies this`oldrows, this`oldpos, this`ofd
      ensures Active() && State() == HideLine(Cfg(), old(State()))
    {
      assert buf[..len][..pos] == buf[..pos] && buf[..len][pos..] == buf[pos..len];
      RefreshWithFlags(CLEAN, buf[..len], pos);
    }

    method Show()
      requires Active()
      modifies this`oldrows, this`oldpos, this`ofd
      ensures Active() && State() == ShowLine(Cfg(), old(State()))
    {
      RefreshVisible(WRITE);
    }

    // ---------- the key handler ----------

    method DropNewestEntry()
      requires Active()
      modifies history`len
      ensures Valid() && State() == DropNewest(old(State()))
    {
      history.len := history.len - 1;
    }

    /** The escape sequences; returns the number of bytes read. */
    method EscapeSequence(k: Input) returns (used: nat)
      requires Active()
      modifies this, buf, history.slots
      ensures Active() && State() == Perform(Cfg(), old(State()), EscapeAction(old(State()).z, k))
      ensures used == if k.s0 == '[' && '0' <= k.s1 <= '9' then 4 else 3
    {
      hide Edit, HistoryMove, Config.Valid;
      used := 3;
      if k.s0 == '[' {
        if '0' <= k.s1 <= '9' {
          used := 4;
          if k.s2 == '~' && k.s1 == '3' {
            EditDelete();
          }
        } else if k.s1 == 'A' {
          EditHistoryNext(true);
        } else if k.s1 == 'B' {
          EditHistoryNext(false);
        } else if k.s1 == 'C' {
          EditMoveRight();
        } else if k.s1 == 'D' {
          EditMoveLeft();
        } else if k.s1 == 'H' {
          EditMoveHome();
        } else if k.s1 == 'F' {
          EditMoveEnd();
        }
      } else if k.s0 == 'O' {
        if k.s1 == 'H' {
          EditMoveHome();
        } else if k.s1 == 'F' {
          EditMoveEnd();
        }
      }
    }

    /** The keys that edit and go on. */
    method EditKey(c: char)
      requires Active() && c != NUL
      modifies this, buf, history.slots
      ensures Active() && State() == Perform(Cfg(), old(State()), KeyAction(old(State()).z, c))
    {
      hide Edit, HistoryMove, Insert, Config.Valid;
      if c == BACKSPACE || c == CTRL_H {
        EditBackspace();
      } else if c == CTRL_D {
        EditDelete();
      } else if c == CTRL_T {
        EditTranspose();
      } else if c == CTRL_B {
        EditMoveLeft();
      } else if c == CTRL_F {
        EditMoveRight();
      } else if c == CTRL_P {
        EditHistoryNext(true);
      } else if c == CTRL_N {
        EditHistoryNext(false);
      } else if c == CTRL_U {
        KillLine();
      } else if c == CTRL_K {
        KillToEnd();
      } else if c == CTRL_A {
        EditMoveHome();
      } else if c == CTRL_E {
        EditMoveEnd();
      } else if c == CTRL_L {
        Clear();
      } else if c == CTRL_W {
        EditDeletePrevWord();
      } else {
        EditInsert(c);
      }
    }

    method Clear()
      requires Active()
      modifies this
      ensures Active() && State() == Perform(Cfg(), old(State()), Action.Clear)
    {
      hide Refresh, Config.Valid;
      ofd := ofd + [ClearScreen];
      RefreshLine();
    }

    /** strdup of the buffer. */
    method ReadLine() returns (line: string)
      requires Valid()
      ensures line == State().z.Text()
    {
      CStrIs(buf[..], len);
      assert buf[..len] == buf[..pos] + buf[pos..len];
      line := CStr(buf[..]);
    }

    method HandleKey(k: Input) returns (r: Outcome, used: nat)
      requires Active() && k.c != NUL
      modifies this, buf, history`len, history.slots
      ensures Valid() && (State(), r, used) == Act(Cfg(), old(State()), k)
      ensures r.More? ==> Active()
    {
      hide Perform, Config.Valid, KeyAction, EscapeAction, Edit;
      used := 1;
      assert |State().z.Text()| == len;
      if k.c == ENTER {
        AcceptLine();
        var line := ReadLine();
        r := Accepted(line);
      } else if k.c == CTRL_C {
        r := Interrupted;
      } else if k.c == CTRL_D && len == 0 {
        DropNewestEntry();
        r := EndOfFile;
      } else if k.c == ESC {
        used := EscapeSequence(k);
        r := More;
      } else {
        EditKey(k.c);
        r := More;
      }
    }

    /** ENTER: the entry that stood for the line leaves the history; in multi-line mode the cursor
        goes to the end of the line. */
    method AcceptLine()
      requires Active()
      modifies this, history`len
      ensures Valid() && var s := DropNewest(old(State()));
              State() == if multi && s.z.right != "" then Edit(Cfg(), s, s.z.End()) else s
    {
      hide Refresh, Config.Valid;
      DropNewestEntry();
      if multi && pos != len {
        pos := len;
        assert buf[..len] == old(buf[..pos]) + old(buf[pos..len]) && buf[len..len] == "";
        RefreshLine();
      }
    }

    /** One call of the key handler. */
    method Feed(k: Input) returns (r: Outcome, used: nat)
      requires Active() && k.c != NUL
      modifies this, buf, history`len, history.slots
      ensures Valid() && (State(), r, used) == Editor.Feed(Cfg(), old(State()), k)
      ensures r.More? ==> Active()
    {
      hide Complete, Act, Config.Valid;
      var c := k.c;
      if completer.Completer? && (inCompletion || c == TAB) {
        c := CompleteLine(c);
        if c as int >= 128 {
          return Failed, 1;
        }
        if c == NUL {
          return More, 1;
        }
      }
      r, used := HandleKey(k.(c := c));
    }

    /** The blocking loop: keys are fed until one ends the session (or the input runs out). */
    method BlockingEdit(keys: seq<Input>) returns (r: Outcome)
      requires Active() && Good(Cfg(), State()) && forall i :: 0 <= i < |keys| ==> keys[i].c != NUL
      modifies this, buf, history`len, history.slots
      ensures Valid() && State() == FeedAll(Cfg(), old(State()), keys)
      ensures r == Ending(Cfg(), old(State()), keys) && (r.More? ==> Active() && Good(Cfg(), State()))
    {
      hide Config.Valid, Editor.Feed, Editor.Good;
      ghost var all, ending := FeedAll(Cfg(), State(), keys), Ending(Cfg(), State(), keys);
      r := More;
      var i := 0;
      assert keys[0..] == keys;
      while i < |keys|
        invariant i <= |keys| && r.More? && history.slots == old(history.slots)
        invariant Active() && Good(Cfg(), State()) && all == FeedAll(Cfg(), State(), keys[i..])
        invariant ending == Ending(Cfg(), State(), keys[i..])
      {
        ghost var s := State();
        FeedKeepsGood(Cfg(), s, keys[i]);
        assert keys[i..][0] == keys[i] && keys[i..][1..] == keys[i + 1..];
        var used;
        r, used := Feed(keys[i]);
        if !r.More? {
          return r;
        }
        i := i + 1;
      }
    }

    /** A session from its start, on any terminal that earlier output left ready: where the prompt
        has room, the line is on the screen afterwards. */
    method BlockingSession(keys: seq<Input>) returns (r: Outcome)
      requires Cfg().Valid() && SizesFit() && buf.Length == buflen + 1
      requires history.Valid() && history.maxLen >= 1 && forall l :: l in history.Lines() ==> NUL !in l
      requires forall i :: 0 <= i < |keys| ==> keys[i].c != NUL
      modifies this, buf, history, history.slots
      ensures Valid()
      ensures var s := Begun(Cfg(), old(history.Lines()), history.maxLen, old(ofd));
              && Good(Cfg(), s) && State() == FeedAll(Cfg(), s, keys) && r == Ending(Cfg(), s, keys)
              && OnAnyScreen(Cfg(), old(ofd), s, keys)
    {
      hide Config.Valid, FeedAll, Ending, AddLine, OnAnyScreen;
      ghost var lines, before := history.Lines(), ofd;
      EditStart();
      assert State() == Begun(Cfg(), lines, history.maxLen, before);
      SessionDraws(Cfg(), lines, history.maxLen, before, keys);
      r := BlockingEdit(keys);
    }
  }

  /** The session a line editor starts, after what it wrote before. */
  function Begun(cfg: Config, lines: seq<string>, max: nat, before: seq<Out>): Line {
    Editor.Start(cfg, AddLine(lines, "", max)).(out := before + Texts(cfg.prompt))
  }

  /** The line is on the screen after the keys. */
  ghost predicate OnScreenAfter(cfg: Config, t: Term, top: nat, s: Line, keys: seq<Input>)
    requires cfg.Valid() && Good(cfg, s)
  {
    var r := FeedAll(cfg, s, keys);
    var u := Run(t, r.out);
    u.cols == cfg.cols && Displayed(cfg, u, RowAfter(cfg, s, keys, top), Visible(cfg, r))
  }

  /** It is on every terminal that earlier output left ready, if the prompt has room. */
  ghost predicate OnAnyScreen(cfg: Config, before: seq<Out>, s: Line, keys: seq<Input>)
    requires cfg.Valid() && Good(cfg, s)
  {
    forall t: Term, top: nat :: Ready(cfg, Run(t, before), top) && RoomForPrompt(cfg) ==>
      OnScreenAfter(cfg, t, top, s, keys)
  }

  lemma SessionDraws(cfg: Config, lines: seq<string>, max: Positive, before: seq<Out>, keys: seq<Input>)
    requires cfg.Valid()
    ensures var s := Begun(cfg, lines, max, before); Good(cfg, s) && OnAnyScreen(cfg, before, s, keys)
  {
    hide OnScreenAfter, AddLine, Ready;
    var s := Begun(cfg, lines, max, before);
    assert Good(cfg, s);
    forall t: Term, top: nat | Ready(cfg, Run(t, before), top) && RoomForPrompt(cfg)
      ensures OnScreenAfter(cfg, t, top, s, keys)
    {
      BegunDraws(cfg, lines, max, before, keys, t, top);
    }
  }

  lemma BegunDraws(cfg: Config, lines: seq<string>, max: Positive, before: seq<Out>, keys: seq<Input>,
                   t: Term, top: nat)
    requires cfg.Valid() && Ready(cfg, Run(t, before), top) && RoomForPrompt(cfg)
    ensures var s := Begun(cfg, lines, max, before); Good(cfg, s) && OnScreenAfter(cfg, t, top, s, keys)
  {
    hide Displayed, FeedAll, RowAfter, Visible, AddLine;
    var s := Begun(cfg, lines, max, before);
    var r := FeedAll(cfg, s, keys);
    RunKeepsCols(t, before);
    StartDraws(cfg, Run(t, before), top, s.hist);
    RunAppend(t, before, Texts(cfg.prompt));
    NothingPreviewed(cfg, s);
    RunDraws(cfg, t, top, s, keys);
    RunKeepsCols(t, r.out);
    DrawnIsDisplayed(cfg, Run(t, r.out), RowAfter(cfg, s, keys, top), r);
  }

  /** A candidate of `buflen` characters: two are stored, and the length says three. */
  method LongCandidateFails(e: LineEditor)
    requires e.BufferValid() && e.buflen == 3
    modifies e`len, e`pos, e.buf
    ensures e.len == 3 && !e.BufferValid()
  {
    e.TakeCandidate("abc");
  }

  lemma {:induction false} ClearUpSnoc(n: nat)
    ensures ClearUp(n + 1) == ClearUp(n) + [Cr, EraseRight, Up(1)]
  {
    if n > 0 {
      ClearUpSnoc(n - 1);
    }
  }
}
