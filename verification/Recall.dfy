/** History navigation and completion preview, for all lines and any number of keys: moving through
    the history is moving a focus over a vector of lines, and a preview changes nothing until a key
    accepts it. */
module Recall {
  import opened Wrap
  import opened Zippers
  import opened CStrings
  import opened Editor
  import opened Histories

  // ---------- the history as a vector of lines with a focus ----------

  /** What the session edits: the history, oldest line first, with the buffer in place of the entry
      in focus. */
  datatype Document = Document(lines: seq<string>, focus: nat) {
    ghost predicate Valid() { focus < |lines| }

    function Move(up: bool): Document {
      if up && focus > 0 then this.(focus := focus - 1)
      else if !up && focus + 1 < |lines| then this.(focus := focus + 1)
      else this
    }

    function MoveAll(moves: seq<bool>): Document
      decreases |moves|
    {
      if moves == [] then this else Move(moves[0]).MoveAll(moves[1..])
    }
  }

  function Doc(s: Line): Document
    requires s.idx < |s.hist|
  {
    Document(s.hist[Slot(s) := s.z.Text()], Slot(s))
  }

  /** Reloading an entry does not cut it. */
  predicate Whole(cfg: Config, line: string) {
    |line| < cfg.buflen
  }

  /** One move up or down keeps every line, and moves only the focus, exactly when it does not move
      at all or the line it moves to is shorter than `buflen`: a longer one is cut when reloaded. The
      cursor goes behind the line moved to, and stays where it is if there is none. */
  lemma MoveIsMove(cfg: Config, s: Line, up: bool)
    requires cfg.Valid() && s.idx < |s.hist|
    ensures var r := HistoryMove(cfg, s, up);
            && r.idx < |r.hist| && Doc(r).focus == Doc(s).Move(up).focus
            && (Doc(r) == Doc(s).Move(up) <==>
                Doc(s).Move(up) == Doc(s) || Whole(cfg, Doc(s).lines[Doc(s).Move(up).focus]))
            && (if Doc(s).Move(up) != Doc(s)
                then r.z == Zipper(Take(Doc(s).lines[Doc(r).focus], cfg.buflen - 1), "") else r.z == s.z)
  {
    hide Refresh;
    var r := HistoryMove(cfg, s, up);
    if |s.hist| > 1 && r.idx != s.idx {
      var stored := s.hist[Slot(s) := s.z.Text()];
      assert Zipper(Reload(cfg, stored[Slot(r)]), "").Text() == Reload(cfg, stored[Slot(r)]);
      assert Doc(r).lines == stored[Slot(r) := Reload(cfg, stored[Slot(r)])];
    }
  }

  /** A line that fills the buffer loses its last character on the way up and down again. */
  lemma FullLineIsCut(cfg: Config, s: Line)
    requires cfg.Valid() && cfg.buflen == 2 && s.z == Zipper("ab", "") && s.hist == ["x", ""] && s.idx == 0
    ensures var r := PerformMoves(cfg, s, [true, false]); r.idx == 0 && r.z.Text() == "a"
  {
    hide Refresh;
    var up := HistoryMove(cfg, s, true);
    var down := HistoryMove(cfg, up, false);
    assert s.z.Text() == "ab" && up.hist == ["x", "ab"] && up.z == Zipper("x", "") && up.idx == 1;
    assert up.z.Text() == "x" && down.z == Zipper("a", "");
    assert [true, false][1..] == [false] && [false][1..] == [];
    assert PerformMoves(cfg, up, [false]) == down;
  }

  /** Every other action changes the line in focus and no other. */
  lemma EditStaysInFocus(cfg: Config, s: Line, a: Action)
    requires cfg.Valid() && s.idx < |s.hist| && !a.MoveHistory?
    ensures var r := Perform(cfg, s, a);
            r.idx < |r.hist| && Doc(r) == Doc(s).(lines := Doc(s).lines[Slot(s) := r.z.Text()])
  {
    hide Refresh;
  }

  function PerformMoves(cfg: Config, s: Line, moves: seq<bool>): (r: Line)
    requires cfg.Valid() && s.idx < |s.hist|
    ensures r.idx < |r.hist|
    decreases |moves|
  {
    if moves == [] then s
    else
      MoveIsMove(cfg, s, moves[0]);
      PerformMoves(cfg, HistoryMove(cfg, s, moves[0]), moves[1..])
  }

  /** Each of the moves stays where it is, or goes to a line that is not cut. */
  predicate WholeOnWay(cfg: Config, d: Document, moves: seq<bool>)
    requires d.focus < |d.lines|
    decreases |moves|
  {
    moves == [] ||
    var e := d.Move(moves[0]);
    (e == d || Whole(cfg, d.lines[e.focus])) && WholeOnWay(cfg, e, moves[1..])
  }

  /** One of the moves changes the focus. */
  predicate FocusChanges(d: Document, moves: seq<bool>)
    decreases |moves|
  {
    moves != [] && (d.Move(moves[0]) != d || FocusChanges(d.Move(moves[0]), moves[1..]))
  }

  /** No line of `t` is longer than it is in `s`. */
  ghost predicate NoLonger(t: seq<string>, s: seq<string>) {
    |t| == |s| && forall i :: 0 <= i < |s| ==> |t[i]| <= |s[i]|
  }

  lemma MoveShortens(cfg: Config, s: Line, up: bool)
    requires cfg.Valid() && s.idx < |s.hist|
    ensures var r := HistoryMove(cfg, s, up); r.idx < |r.hist| && NoLonger(Doc(r).lines, Doc(s).lines)
    ensures var r, j := HistoryMove(cfg, s, up), Doc(s).Move(up).focus;
            Doc(s).Move(up) != Doc(s) && !Whole(cfg, Doc(s).lines[j]) ==> |Doc(r).lines[j]| < |Doc(s).lines[j]|
  {
    hide Refresh;
    MoveIsMove(cfg, s, up);
    var r := HistoryMove(cfg, s, up);
    if |s.hist| > 1 && r.idx != s.idx {
      var stored := s.hist[Slot(s) := s.z.Text()];
      var loaded := Reload(cfg, stored[Slot(r)]);
      assert Zipper(loaded, "").Text() == loaded && |loaded| <= |stored[Slot(r)]|;
      assert Doc(r).lines == stored[Slot(r) := loaded];
    }
  }

  lemma {:induction false} MovesShorten(cfg: Config, s: Line, moves: seq<bool>)
    requires cfg.Valid() && s.idx < |s.hist|
    ensures NoLonger(Doc(PerformMoves(cfg, s, moves)).lines, Doc(s).lines)
    decreases |moves|
  {
    hide HistoryMove;
    if moves != [] {
      MoveShortens(cfg, s, moves[0]);
      MovesShorten(cfg, HistoryMove(cfg, s, moves[0]), moves[1..]);
    }
  }

  /** Where the moves lead depends on the number of lines only. */
  lemma {:induction false} FocusMoves(d: Document, e: Document, moves: seq<bool>)
    requires d.Valid() && d.focus == e.focus && |d.lines| == |e.lines|
    ensures d.MoveAll(moves).focus == e.MoveAll(moves).focus < |d.lines| && d.MoveAll(moves).lines == d.lines
    ensures FocusChanges(d, moves) <==> FocusChanges(e, moves)
    decreases |moves|
  {
    if moves != [] {
      FocusMoves(d.Move(moves[0]), e.Move(moves[0]), moves[1..]);
    }
  }

  /** Any sequence of moves moves the focus, and loses nothing exactly if none of the moves goes to a
      line that is cut when reloaded. The cursor ends behind the line, or where it was if the focus
      never changed. */
  lemma {:induction false} MovesAreMoves(cfg: Config, s: Line, moves: seq<bool>)
    requires cfg.Valid() && s.idx < |s.hist|
    ensures var r := PerformMoves(cfg, s, moves);
            && Doc(r).focus == Doc(s).MoveAll(moves).focus && r.z.Text() == Doc(r).lines[Slot(r)]
            && (Doc(r).lines == Doc(s).lines <==> WholeOnWay(cfg, Doc(s), moves))
            && (if FocusChanges(Doc(s), moves) then r.z.right == "" else r.z == s.z)
    decreases |moves|
  {
    hide HistoryMove;
    if moves != [] {
      var s1 := HistoryMove(cfg, s, moves[0]);
      MoveIsMove(cfg, s, moves[0]);
      MoveShortens(cfg, s, moves[0]);
      MovesAreMoves(cfg, s1, moves[1..]);
      MovesShorten(cfg, s1, moves[1..]);
      FocusMoves(Doc(s1), Doc(s).Move(moves[0]), moves[1..]);
    }
  }

  lemma {:induction false} DocMovesInTurn(d: Document, a: seq<bool>, b: seq<bool>)
    ensures d.MoveAll(a + b) == d.MoveAll(a).MoveAll(b)
    decreases |a|
  {
    if a == [] {
      assert a + b == b;
    } else {
      assert (a + b)[1..] == a[1..] + b;
      DocMovesInTurn(d.Move(a[0]), a[1..], b);
    }
  }

  function Repeat(up: bool, k: nat): (moves: seq<bool>)
    ensures |moves| == k
  {
    if k == 0 then [] else [up] + Repeat(up, k - 1)
  }

  lemma {:induction false} RepeatMoves(d: Document, up: bool, k: nat)
    requires d.Valid()
    ensures var n := if up then d.focus - k else d.focus + k;
            d.MoveAll(Repeat(up, k)).lines == d.lines
            && d.MoveAll(Repeat(up, k)).focus == if n < 0 then 0 else if n >= |d.lines| then |d.lines| - 1 else n
    decreases k
  {
    if k > 0 {
      assert Repeat(up, k)[1..] == Repeat(up, k - 1);
      RepeatMoves(d.Move(up), up, k - 1);
    }
  }

  function UpsDowns(k: nat): seq<bool> {
    Repeat(true, k) + Repeat(false, k)
  }

  /** `k` moves up and `k` moves down end in the line they started in, except that the top of the
      history may have been reached on the way. They bring everything back exactly if it was not, or
      the line is the newest, and no line on the way was cut. */
  lemma UpsThenDowns(cfg: Config, s: Line, k: nat)
    requires cfg.Valid() && s.idx < |s.hist|
    ensures var r := PerformMoves(cfg, s, UpsDowns(k));
            && Slot(r) == (if k <= Slot(s) then Slot(s) else if k < |s.hist| then k else |s.hist| - 1)
            && r.z.Text() == Doc(r).lines[Slot(r)]
            && (Doc(r).lines == Doc(s).lines <==> WholeOnWay(cfg, Doc(s), UpsDowns(k)))
            && (Doc(r) == Doc(s) <==>
                (k <= Slot(s) || s.idx == 0) && WholeOnWay(cfg, Doc(s), UpsDowns(k)))
  {
    hide PerformMoves, WholeOnWay, HistoryMove;
    MovesAreMoves(cfg, s, UpsDowns(k));
    DocMovesInTurn(Doc(s), Repeat(true, k), Repeat(false, k));
    RepeatMoves(Doc(s), true, k);
    RepeatMoves(Doc(s).MoveAll(Repeat(true, k)), false, k);
    MovesShorten(cfg, s, UpsDowns(k));
  }

  // ---------- what a session leaves in the history ----------

  /** The key does not move through the history. */
  predicate NoRecall(k: Input) {
    k.c != CTRL_P && k.c != CTRL_N && !(k.c == ESC && k.s0 == '[' && (k.s1 == 'A' || k.s1 == 'B'))
  }

  /** The history after a key: as many lines as before, one less if the key ends the session by
      ENTER or end of file; the same lines if the key does not move through them. */
  ghost predicate HistoryKept(before: seq<string>, after: seq<string>, r: Outcome, same: bool)
    requires before != []
  {
    var left := if Closed(r) then before[..|before| - 1] else before;
    |after| == |left| && (same ==> after == left)
  }

  lemma FeedKeepsHistory(cfg: Config, s: Line, k: Input)
    requires cfg.Valid() && Good(cfg, s)
    ensures var (s1, r, used) := Feed(cfg, s, k); HistoryKept(s.hist, s1.hist, r, NoRecall(k))
  {
    hide Act, Complete;
    CompleteKeepsGood(cfg, s, k.c);
    if cfg.completer.Completer? && (s.inCompletion || k.c == TAB) {
      var (s1, c) := Complete(cfg, s, k.c);
      ActKeepsHistory(cfg, s1, k.(c := c));
    } else {
      ActKeepsHistory(cfg, s, k);
    }
  }

  lemma ActKeepsHistory(cfg: Config, s: Line, k: Input)
    requires cfg.Valid() && s.idx < |s.hist|
    ensures var (s1, r, used) := Act(cfg, s, k); HistoryKept(s.hist, s1.hist, r, NoRecall(k))
  {
    hide Perform, KeyAction, EscapeAction, Refresh;
    PerformKeepsHistory(cfg, s, KeyAction(s.z, k.c));
    PerformKeepsHistory(cfg, s, EscapeAction(s.z, k));
    RecallKeys(s.z, k);
  }

  lemma RecallKeys(z: Zipper, k: Input)
    ensures NoRecall(k) && k.c != ESC ==> !KeyAction(z, k.c).MoveHistory?
    ensures NoRecall(k) && k.c == ESC ==> !EscapeAction(z, k).MoveHistory?
  {}

  lemma PerformKeepsHistory(cfg: Config, s: Line, a: Action)
    requires cfg.Valid() && s.idx < |s.hist|
    ensures var r := Perform(cfg, s, a); |r.hist| == |s.hist| && (!a.MoveHistory? ==> r.hist == s.hist)
  {
    hide Refresh;
  }

  lemma {:induction false} RunKeepsHistory(cfg: Config, s: Line, keys: seq<Input>)
    requires cfg.Valid() && Good(cfg, s)
    ensures HistoryKept(s.hist, FeedAll(cfg, s, keys).hist, Ending(cfg, s, keys), forall k :: k in keys ==> NoRecall(k))
    decreases |keys|
  {
    hide Feed, NoRecall;
    if keys != [] {
      FeedKeepsGood(cfg, s, keys[0]);
      FeedKeepsHistory(cfg, s, keys[0]);
      var (s1, r, used) := Feed(cfg, s, keys[0]);
      if r.More? {
        RunKeepsHistory(cfg, s1, keys[1..]);
        assert keys == [keys[0]] + keys[1..];
      }
    }
  }

  /** The entry that stood for the line leaves the history with ENTER and end of file; an interrupted
      session leaves it there. */
  predicate Closed(r: Outcome) {
    r.Accepted? || r.EndOfFile?
  }

  /** The lines a session keeps beside the entry that stands for the line. */
  function Others(lines: seq<string>, max: Positive): seq<string> {
    if Repeats(lines, "") then lines[..|lines| - 1] else Latest(lines, max - 1)
  }

  /** The history can take one more line, and its newest is not empty. */
  predicate HasRoom(lines: seq<string>, max: Positive) {
    |lines| < max && !Repeats(lines, "")
  }

  lemma OthersAreAll(lines: seq<string>, max: Positive)
    requires |lines| <= max
    ensures AddLine(lines, "", max) == Others(lines, max) + [""]
    ensures |Others(lines, max)| == |lines| - (if HasRoom(lines, max) then 0 else 1)
    ensures Others(lines, max) == lines <==> HasRoom(lines, max)
    ensures Others(lines, max) + [""] == lines <==> Repeats(lines, "")
  {}

  /** A session of any keys, whatever ends it. Closed, it leaves as many lines as there were if and only
      if the history had room: a full history has lost its oldest line to the entry that stood for
      the line being edited, and a newest empty line was taken for that entry and dropped. Not closed,
      it leaves that entry behind. Unless the session moved through the history, the other lines are
      the same. */
  lemma SessionHistory(cfg: Config, lines: seq<string>, max: Positive, keys: seq<Input>)
    requires cfg.Valid() && |lines| <= max
    ensures var s := Start(cfg, AddLine(lines, "", max));
            var left, closed := FeedAll(cfg, s, keys).hist, Closed(Ending(cfg, s, keys));
            && |left| == |Others(lines, max)| + (if closed then 0 else 1)
            && (closed ==> (|left| == |lines| <==> HasRoom(lines, max)))
            && ((forall k :: k in keys ==> NoRecall(k)) ==>
                 && left == Others(lines, max) + (if closed then [] else [""])
                 && (left == lines <==> if closed then HasRoom(lines, max) else Repeats(lines, "")))
  {
    hide FeedAll, Ending, NoRecall, AddLine, Others, HasRoom, Repeats;
    OthersAreAll(lines, max);
    RunKeepsHistory(cfg, Start(cfg, AddLine(lines, "", max)), keys);
  }

  /** ENTER at once, with a full history and with an empty newest line: a line is gone. */
  lemma EnterForgets(cfg: Config)
    requires cfg.Valid()
    ensures var full := Start(cfg, AddLine(["x", "y"], "", 2)); var enter := [Input(ENTER, NUL, NUL, NUL)];
            Ending(cfg, full, enter).Accepted? && FeedAll(cfg, full, enter).hist == ["y"]
    ensures var empty := Start(cfg, AddLine(["x", ""], "", 9)); var enter := [Input(ENTER, NUL, NUL, NUL)];
            Ending(cfg, empty, enter).Accepted? && FeedAll(cfg, empty, enter).hist == ["x"]
  {
    hide FeedAll, Ending;
    EnterAtOnce(cfg, ["x", "y"], 2);
    EnterAtOnce(cfg, ["x", ""], 9);
  }

  lemma EnterAtOnce(cfg: Config, lines: seq<string>, max: Positive)
    requires cfg.Valid() && |lines| <= max
    ensures var s := Start(cfg, AddLine(lines, "", max)); var enter := [Input(ENTER, NUL, NUL, NUL)];
            && Ending(cfg, s, enter).Accepted?
            && FeedAll(cfg, s, enter).hist == Others(lines, max)
  {
    hide Refresh;
    SessionHistory(cfg, lines, max, [Input(ENTER, NUL, NUL, NUL)]);
  }

  // ---------- completion ----------

  /** The session apart from what was written to the terminal. */
  ghost predicate SameLine(s: Line, u: Line) {
    s.z == u.z && s.hist == u.hist && s.idx == u.idx && s.inCompletion == u.inCompletion
  }

  function Tabs(cfg: Config, s: Line, k: nat): (r: Line)
    requires cfg.Valid()
    ensures r.z == s.z && r.hist == s.hist && r.idx == s.idx
  {
    if k == 0 then s else Complete(cfg, Tabs(cfg, s, k - 1), TAB).0
  }

  /** The candidates in turn, and the line as it was. */
  function Choice(cfg: Config, s: Line, i: nat): Zipper {
    var cs := cfg.Candidates(s.z.Text());
    if i < |cs| then Zipper(cs[i], "") else s.z
  }

  lemma NextModulo(d: Positive, k: nat)
    requires k > 0
    ensures (k - 1) % d < d && k % d == if (k - 1) % d + 1 == d then 0 else (k - 1) % d + 1
  {
    RowColDivMod(d, k - 1);
    RowColDivMod(d, k);
    NextPlace(d, k);
  }

  lemma TabStep(cfg: Config, s: Line)
    requires cfg.Valid() && cfg.Candidates(s.z.Text()) != []
    requires s.inCompletion ==> s.completionIdx <= |cfg.Candidates(s.z.Text())|
    ensures var n := |cfg.Candidates(s.z.Text())|; var r := Complete(cfg, s, TAB).0;
            && r.inCompletion
            && r.completionIdx == if !s.inCompletion || s.completionIdx == n then 0 else s.completionIdx + 1
  {
    hide Refresh;
    var n := |cfg.Candidates(s.z.Text())|;
    if s.inCompletion {
      var i := s.completionIdx + 1;
      assert i % (n + 1) == if i == n + 1 then 0 else i;
    }
  }

  /** Any number of TABs leaves line, cursor and history untouched, and the preview goes round the
      candidates and the original. */
  lemma {:induction false} TabsPreview(cfg: Config, s: Line, k: nat)
    requires cfg.Valid() && !s.inCompletion && cfg.Candidates(s.z.Text()) != []
    ensures var n := |cfg.Candidates(s.z.Text())|; var r := Tabs(cfg, s, k);
            && r.z == s.z && r.hist == s.hist && r.idx == s.idx && r.inCompletion == (k > 0)
            && (k > 0 ==> r.completionIdx == (k - 1) % (n + 1) <= n)
            && (k > 0 ==> Visible(cfg, r) == Choice(cfg, s, (k - 1) % (n + 1)))
  {
    hide Complete;
    if k > 0 {
      TabsPreview(cfg, s, k - 1);
      TabStep(cfg, Tabs(cfg, s, k - 1));
      if k > 1 {
        NextModulo(|cfg.Candidates(s.z.Text())| + 1, k - 1);
      } else {
        assert 0 % (|cfg.Candidates(s.z.Text())| + 1) == 0;
      }
    }
  }

  /** ESC leaves the preview, and the line is what it was before the first TAB. */
  lemma EscapeRestores(cfg: Config, s: Line, k: nat)
    requires cfg.Valid() && s.idx < |s.hist| && !s.inCompletion && cfg.Candidates(s.z.Text()) != [] && k > 0
    ensures var (r, c) := Complete(cfg, Tabs(cfg, s, k), ESC); SameLine(r, s) && c == NUL
  {
    hide Refresh;
    TabsPreview(cfg, s, k);
  }

  /** What a key does depends on the line alone, not on what the screen shows. */
  lemma ActIgnoresScreen(cfg: Config, s: Line, u: Line, k: Input)
    requires cfg.Valid() && s.idx < |s.hist| && SameLine(s, u)
    ensures SameLine(Act(cfg, s, k).0, Act(cfg, u, k).0)
    ensures Act(cfg, s, k).1 == Act(cfg, u, k).1 && Act(cfg, s, k).2 == Act(cfg, u, k).2
  {
    hide Refresh, Perform, KeyAction, EscapeAction;
    PerformIgnoresScreen(cfg, s, u, KeyAction(s.z, k.c));
    PerformIgnoresScreen(cfg, s, u, EscapeAction(s.z, k));
  }

  lemma PerformIgnoresScreen(cfg: Config, s: Line, u: Line, a: Action)
    requires cfg.Valid() && s.idx < |s.hist| && SameLine(s, u)
    ensures SameLine(Perform(cfg, s, a), Perform(cfg, u, a))
  {
    hide Refresh;
  }

  lemma ActNeverFails(cfg: Config, s: Line, k: Input)
    requires cfg.Valid() && s.idx < |s.hist|
    ensures !Act(cfg, s, k).1.Failed?
  {
    hide Perform, Edit;
  }

  /** A key after `k` TABs and the same key on the line replaced by the candidate previewed, with the
      cursor at its end (or left as it was if the original was shown). */
  ghost predicate AcceptsPreview(cfg: Config, s: Line, k: nat, key: Input)
    requires cfg.Valid() && s.idx < |s.hist| && k > 0
  {
    var n := |cfg.Candidates(s.z.Text())|;
    var (r, o, used) := Feed(cfg, Tabs(cfg, s, k), key);
    var (r', o', used') := Feed(cfg, s.(z := Choice(cfg, s, (k - 1) % (n + 1))), key);
    SameLine(r, r') && o == o' && used == used'
  }

  /** They do the same exactly if the key is ASCII: a byte outside it is taken for a read error, which
      ends the session, where a line not completed would take the character in. */
  lemma KeyAcceptsPreview(cfg: Config, s: Line, k: nat, key: Input)
    requires cfg.Valid() && s.idx < |s.hist| && !s.inCompletion && cfg.Candidates(s.z.Text()) != [] && k > 0
    requires key.c != TAB && key.c != ESC && key.c != NUL
    ensures AcceptsPreview(cfg, s, k, key) <==> key.c as int < 128
  {
    hide Refresh, Act;
    TabsPreview(cfg, s, k);
    var t := Tabs(cfg, s, k);
    var n := |cfg.Candidates(s.z.Text())|;
    var (s1, c) := Complete(cfg, t, key.c);
    var plain := s.(z := Choice(cfg, s, (k - 1) % (n + 1)));
    assert SameLine(s1, plain) && c == key.c;
    assert key.(c := c) == key;
    ActIgnoresScreen(cfg, s1, plain, key);
    ActNeverFails(cfg, plain, key);
  }

  /** TAB, then the first byte of a character outside ASCII: the session is over. Without the TAB the
      line would have taken the byte in. */
  lemma ByteAfterTabFails(cfg: Config, s: Line)
    requires cfg.Valid() && Good(cfg, s) && !s.inCompletion
    requires cfg.Candidates(s.z.Text()) == ["help"]
    ensures var tab, byte := Input(TAB, NUL, NUL, NUL), Input(195 as char, NUL, NUL, NUL);
            && Ending(cfg, s, [tab, byte]) == Failed && Ending(cfg, s, [byte]) == More
  {
    hide Refresh;
    var tab, byte := Input(TAB, NUL, NUL, NUL), Input(195 as char, NUL, NUL, NUL);
    assert [tab, byte][1..] == [byte] && [byte][1..] == [];
    FeedKeepsGood(cfg, s, tab);
    FeedKeepsGood(cfg, s, byte);
  }
}
