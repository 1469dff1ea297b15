/** Whole runs of keys: what the terminal shows after each of them. */
module Session {
  import opened Wrap
  import opened Terminal
  import opened MultiLine
  import opened SingleLine
  import opened Zippers
  import opened CStrings
  import opened Editor

  /** The terminal shows the line `z` from row `top` on, with the cursor on its character, and is
      tied to what the last refresh remembered. */
  ghost predicate Drawn(cfg: Config, t: Term, top: nat, z: Zipper, oldrows: nat, oldpos: nat) {
    && t.cols == cfg.cols
    && if cfg.multi then
         && ShowsText(t, top, cfg.prompt + z.Text())
         && Linked(t, top, |cfg.prompt|, oldrows, oldpos)
         && CursorAt(t, top, |cfg.prompt| + |z.left|)
       else
         && |cfg.prompt| < cfg.cols
         && SingleShown(t, top, cfg.prompt, z.Text(), |z.left|)
         && SingleCursor(t, cfg.prompt, |z.left|)
  }

  /** Everything the session wrote to terminal `t` has drawn the line `z`. */
  ghost predicate OnScreen(cfg: Config, t: Term, top: nat, s: Line, z: Zipper) {
    Drawn(cfg, Run(t, s.out), top, z, s.oldrows, s.oldpos)
  }

  /** What the renderers need of prompt and width to put every character and the cursor right. */
  predicate RoomForPrompt(cfg: Config) {
    |cfg.prompt| < cfg.cols && (cfg.multi || cfg.prompt != "" || cfg.cols == 1)
  }

  /** The rows the session must leave alone: those above the prompt, or all but the prompt's own. */
  ghost predicate Untouched(cfg: Config, t0: Term, t: Term, top: nat) {
    if cfg.multi then SameAbove(t0, t, top) else SameElsewhere(t0, t, top)
  }

  lemma RefreshDraws(cfg: Config, t: Term, top: nat, s: Line, was: Zipper, z: Zipper)
    requires cfg.Valid() && RoomForPrompt(cfg)
    requires OnScreen(cfg, t, top, s, was) && t.cols == cfg.cols
    ensures var r := Refresh(cfg, s, ALL, z);
            && OnScreen(cfg, t, top, r, z)
            && Untouched(cfg, Run(t, s.out), Run(t, r.out), top)
  {
    var u := Run(t, s.out);
    var text, pos := z.Text(), |z.left|;
    if cfg.multi {
      RunAppend(t, s.out, RefreshOut(ALL, cfg.cols, cfg.prompt, text, pos, s.oldrows, s.oldpos));
      RefreshShows(u, top, cfg.prompt, text, pos, s.oldrows, s.oldpos);
    } else {
      RunAppend(t, s.out, SingleOut(ALL, cfg.cols, cfg.prompt, text, pos));
      RefreshShowsRow(u, cfg.prompt, text, pos);
    }
  }

  lemma ClearDraws(cfg: Config, t: Term, s: Line, z: Zipper)
    requires cfg.Valid() && RoomForPrompt(cfg)
    requires Run(t, s.out).cols == cfg.cols
    ensures var r := Refresh(cfg, s.(out := s.out + [ClearScreen]), ALL, z);
            OnScreen(cfg, t, 0, r, z)
  {
    hide Run, ShowsText, Linked, RefreshOut, SingleOut;
    var u := Run(t, s.out);
    var text, pos := z.Text(), |z.left|;
    if cfg.multi {
      var refresh := RefreshOut(ALL, cfg.cols, cfg.prompt, text, pos, s.oldrows, s.oldpos);
      assert s.out + [ClearScreen] + refresh == s.out + ([ClearScreen] + refresh);
      RunAppend(t, s.out, [ClearScreen] + refresh);
      RefreshAfterClear(u, cfg.prompt, text, pos, s.oldrows, s.oldpos);
    } else {
      var refresh := SingleOut(ALL, cfg.cols, cfg.prompt, text, pos);
      RunAppend(t, s.out, [ClearScreen]);
      RunOne(u, ClearScreen);
      RunAppend(t, s.out + [ClearScreen], refresh);
      RefreshShowsRow(Step(u, ClearScreen), cfg.prompt, text, pos);
    }
  }

  /** The fast path. */
  lemma AppendDraws(cfg: Config, t: Term, top: nat, s: Line, c: char)
    requires cfg.Valid() && RoomForPrompt(cfg) && t.cols == cfg.cols && OnScreen(cfg, t, top, s, s.z)
    requires s.z.right == "" && !cfg.multi && |cfg.prompt| + |s.z.left| + 1 < cfg.cols
    ensures var r := s.(z := s.z.Insert(c), out := s.out + [Text(c)]);
            OnScreen(cfg, t, top, r, r.z) && Untouched(cfg, Run(t, s.out), Run(t, r.out), top)
  {
    hide Run, SingleOut, Window;
    var u := Run(t, s.out);
    RunAppend(t, s.out, [Text(c)]);
    var buf := s.z.left;
    assert s.z.Text() == buf && s.z.Insert(c).Text() == buf + [c];
    FastPath(u, cfg.prompt, buf, c);
    RefreshShowsRow(u, cfg.prompt, buf + [c], |buf| + 1);
  }

  lemma InsertDraws(cfg: Config, t: Term, top: nat, s: Line, c: char)
    requires cfg.Valid() && RoomForPrompt(cfg) && t.cols == cfg.cols
    requires OnScreen(cfg, t, top, s, s.z)
    ensures var r := Insert(cfg, s, c);
            && OnScreen(cfg, t, top, r, r.z)
            && Untouched(cfg, Run(t, s.out), Run(t, r.out), top)
  {
    if |s.z.Text()| >= cfg.buflen {
    } else if s.z.right == "" && !cfg.multi && |cfg.prompt| + |s.z.left| + 1 < cfg.cols {
      AppendDraws(cfg, t, top, s, c);
    } else {
      RefreshDraws(cfg, t, top, s.(z := s.z.Insert(c)), s.z, s.z.Insert(c));
    }
  }

  /** Where the line starts after an action: a cleared screen moves it to the top. */
  function NextTop(top: nat, a: Action): nat {
    if a.Clear? then 0 else top
  }

  lemma PerformDraws(cfg: Config, t: Term, top: nat, s: Line, a: Action)
    requires cfg.Valid() && RoomForPrompt(cfg) && t.cols == cfg.cols
    requires Good(cfg, s) && OnScreen(cfg, t, top, s, s.z) && (a.EditLine? && !a.changed ==> a.z == s.z)
    ensures var r := Perform(cfg, s, a);
            && OnScreen(cfg, t, NextTop(top, a), r, r.z)
            && (!a.Clear? ==> Untouched(cfg, Run(t, s.out), Run(t, r.out), top))
  {
    hide Drawn, Refresh, Untouched;
    match a {
      case EditLine(changed, z) =>
        if changed {
          RefreshDraws(cfg, t, top, s.(z := z), s.z, z);
        } else {
          Unmoved(cfg, Run(t, s.out), top);
        }
      case MoveHistory(up) =>
        Unmoved(cfg, Run(t, s.out), top);
        MoveDraws(cfg, t, top, s, up);
      case Clear =>
        RunKeepsCols(t, s.out);
        ClearDraws(cfg, t, s, s.z);
      case InsertChar(c) =>
        InsertDraws(cfg, t, top, s, c);
      case Nothing =>
        Unmoved(cfg, Run(t, s.out), top);
    }
  }

  lemma Unmoved(cfg: Config, t: Term, top: nat)
    ensures Untouched(cfg, t, t, top)
  {}

  lemma MoveDraws(cfg: Config, t: Term, top: nat, s: Line, up: bool)
    requires cfg.Valid() && RoomForPrompt(cfg) && t.cols == cfg.cols
    requires Good(cfg, s) && OnScreen(cfg, t, top, s, s.z)
    ensures var r := HistoryMove(cfg, s, up);
            && OnScreen(cfg, t, top, r, r.z)
            && Untouched(cfg, Run(t, s.out), Run(t, r.out), top)
  {
    if |s.hist| > 1 {
      var stored := s.(hist := s.hist[Slot(s) := s.z.Text()]);
      if (up && s.idx < |s.hist| - 1) || (!up && s.idx > 0) {
        var moved := stored.(idx := if up then s.idx + 1 else s.idx - 1);
        var z := Zipper(Reload(cfg, moved.hist[Slot(moved)]), "");
        RefreshDraws(cfg, t, top, moved.(z := z), s.z, z);
      }
    }
  }

  // ---------- completion and the key handler ----------

  lemma CompleteDraws(cfg: Config, t: Term, top: nat, s: Line, c: char)
    requires cfg.Valid() && RoomForPrompt(cfg) && t.cols == cfg.cols
    requires Good(cfg, s) && OnScreen(cfg, t, top, s, Visible(cfg, s))
    ensures var r := Complete(cfg, s, c).0;
            && OnScreen(cfg, t, top, r, Visible(cfg, r))
            && Untouched(cfg, Run(t, s.out), Run(t, r.out), top)
  {
    hide Drawn, Refresh;
    var cs := cfg.Candidates(s.z.Text());
    if cs == [] {
    } else if c == ESC && s.completionIdx < |cs| {
      var r1 := Refresh(cfg, s, ALL, s.z);
      RefreshDraws(cfg, t, top, s, Visible(cfg, s), s.z);
      var s1 := r1.(inCompletion := false);
      RefreshDraws(cfg, t, top, s1, s.z, s.z);
      RunKeepsCols(t, s.out);
      RunKeepsCols(t, r1.out);
      RunKeepsCols(t, Refresh(cfg, s1, ALL, s.z).out);
      TwiceUntouched(cfg, Run(t, s.out), Run(t, r1.out), Run(t, Refresh(cfg, s1, ALL, s.z).out), top);
    } else {
      var s1 := if c == TAB then
          if s.inCompletion then s.(completionIdx := (s.completionIdx + 1) % (|cs| + 1))
          else s.(inCompletion := true, completionIdx := 0)
        else if c == ESC || s.completionIdx >= |cs| then s.(inCompletion := false)
        else s.(z := Zipper(cs[s.completionIdx], ""), inCompletion := false);
      RefreshDraws(cfg, t, top, s1, Visible(cfg, s), Visible(cfg, s1));
    }
  }

  lemma TwiceUntouched(cfg: Config, t: Term, u: Term, v: Term, top: nat)
    requires t.cols == u.cols == v.cols && Untouched(cfg, t, u, top) && Untouched(cfg, u, v, top)
    ensures Untouched(cfg, t, v, top)
  {}

  lemma ActDraws(cfg: Config, t: Term, top: nat, s: Line, k: Input)
    requires cfg.Valid() && RoomForPrompt(cfg) && t.cols == cfg.cols
    requires Good(cfg, s) && !s.inCompletion && OnScreen(cfg, t, top, s, s.z)
    ensures var r := Act(cfg, s, k).0;
            && OnScreen(cfg, t, if k.c == CTRL_L then 0 else top, r, r.z)
            && (k.c != CTRL_L ==> Untouched(cfg, Run(t, s.out), Run(t, r.out), top))
  {
    UnchangedEdits(s.z, k);
    hide Drawn, Refresh, Untouched, Perform, KeyAction, EscapeAction;
    Unmoved(cfg, Run(t, s.out), top);
    if k.c == ENTER {
      RefreshDraws(cfg, t, top, DropNewest(s).(z := s.z.End()), s.z, s.z.End());
    } else if k.c == ESC {
      PerformDraws(cfg, t, top, s, EscapeAction(s.z, k));
    } else {
      PerformDraws(cfg, t, top, s, KeyAction(s.z, k.c));
    }
  }

  /** An edit that is not redrawn changes nothing, and only Ctrl-L clears the screen. */
  lemma UnchangedEdits(z: Zipper, k: Input)
    ensures var a := KeyAction(z, k.c); (a.EditLine? && !a.changed ==> a.z == z) && (a.Clear? <==> k.c == CTRL_L)
    ensures var a := EscapeAction(z, k); (a.EditLine? && !a.changed ==> a.z == z) && !a.Clear?
  {}

  lemma FeedDraws(cfg: Config, t: Term, top: nat, s: Line, k: Input)
    requires cfg.Valid() && RoomForPrompt(cfg) && t.cols == cfg.cols
    requires Good(cfg, s) && OnScreen(cfg, t, top, s, Visible(cfg, s))
    ensures var r := Feed(cfg, s, k).0;
            && OnScreen(cfg, t, if k.c == CTRL_L then 0 else top, r, Visible(cfg, r))
            && (k.c != CTRL_L ==> Untouched(cfg, Run(t, s.out), Run(t, r.out), top))
  {
    hide Drawn, Refresh, Untouched, Perform, Complete;
    if cfg.completer.Completer? && (s.inCompletion || k.c == TAB) {
      var (s1, c) := Complete(cfg, s, k.c);
      CompleteKeepsGood(cfg, s, k.c);
      CompleteDraws(cfg, t, top, s, k.c);
      CompleteKey(cfg, s, k.c);
      if c as int < 128 && c != NUL {
        ActDraws(cfg, t, top, s1, k.(c := c));
        ActEndsPreview(cfg, s1, k.(c := c));
        var r := Act(cfg, s1, k.(c := c)).0;
        RunKeepsCols(t, s.out);
        RunKeepsCols(t, s1.out);
        RunKeepsCols(t, r.out);
        if k.c != CTRL_L {
          TwiceUntouched(cfg, Run(t, s.out), Run(t, s1.out), Run(t, r.out), top);
        }
      }
    } else {
      ActDraws(cfg, t, top, s, k);
      ActEndsPreview(cfg, s, k);
    }
  }

  lemma CompleteKey(cfg: Config, s: Line, c: char)
    requires cfg.Valid()
    ensures Complete(cfg, s, c).1 == NUL || Complete(cfg, s, c).1 == c
    ensures c != TAB && c != ESC ==> Complete(cfg, s, c).1 == c
  {}

  lemma ActEndsPreview(cfg: Config, s: Line, k: Input)
    requires cfg.Valid() && s.idx < |s.hist| && !s.inCompletion
    ensures !Act(cfg, s, k).0.inCompletion
  {
    hide Refresh, KeyAction, EscapeAction;
  }

  // ---------- whole runs ----------

  predicate NoClearScreen(keys: seq<Input>) {
    forall k :: k in keys ==> k.c != CTRL_L
  }

  /** The keys of a run that are fed before the session is over. */
  function KeysFed(cfg: Config, s: Line, keys: seq<Input>): seq<Input>
    requires cfg.Valid() && Good(cfg, s)
  {
    keys[..Fed(cfg, s, keys)]
  }

  /** The row the line starts in after a run: Ctrl-L moves it to the top of the screen. */
  function RowAfter(cfg: Config, s: Line, keys: seq<Input>, top: nat): nat
    requires cfg.Valid() && Good(cfg, s)
  {
    if NoClearScreen(KeysFed(cfg, s, keys)) then top else 0
  }

  lemma FedStep(cfg: Config, s: Line, keys: seq<Input>, top: nat)
    requires cfg.Valid() && Good(cfg, s) && keys != []
    ensures var (s1, r, used) := Feed(cfg, s, keys[0]);
            var next := if keys[0].c == CTRL_L then 0 else top;
            if r.More? then
              && Good(cfg, s1) && RowAfter(cfg, s, keys, top) == RowAfter(cfg, s1, keys[1..], next)
              && (NoClearScreen(KeysFed(cfg, s, keys)) <==>
                  keys[0].c != CTRL_L && NoClearScreen(KeysFed(cfg, s1, keys[1..])))
            else
              RowAfter(cfg, s, keys, top) == next && (NoClearScreen(KeysFed(cfg, s, keys)) <==> keys[0].c != CTRL_L)
  {
    hide Feed;
    var (s1, r, used) := Feed(cfg, s, keys[0]);
    FeedKeepsGood(cfg, s, keys[0]);
    var n := Fed(cfg, s, keys);
    assert keys[..n] == [keys[0]] + keys[1..][..n - 1];
  }

  /** Whatever keys are fed, the line is drawn after them: in the row it was drawn in, nothing else
      on the screen being touched, or at the top of the screen if Ctrl-L was among them. */
  lemma {:induction false} RunDraws(cfg: Config, t: Term, top: nat, s: Line, keys: seq<Input>)
    requires cfg.Valid() && RoomForPrompt(cfg) && t.cols == cfg.cols
    requires Good(cfg, s) && OnScreen(cfg, t, top, s, Visible(cfg, s))
    ensures var r := FeedAll(cfg, s, keys);
            && OnScreen(cfg, t, RowAfter(cfg, s, keys, top), r, Visible(cfg, r))
            && (NoClearScreen(KeysFed(cfg, s, keys)) ==> Untouched(cfg, Run(t, s.out), Run(t, r.out), top))
    decreases |keys|
  {
    hide OnScreen, Untouched, Feed, RowAfter, KeysFed, NoClearScreen;
    if keys == [] {
      Unmoved(cfg, Run(t, s.out), top);
      NothingFed(cfg, s, top);
    } else {
      var k := keys[0];
      var (s1, r1, used) := Feed(cfg, s, k);
      FeedDraws(cfg, t, top, s, k);
      FedStep(cfg, s, keys, top);
      if r1.More? {
        RunDraws(cfg, t, if k.c == CTRL_L then 0 else top, s1, keys[1..]);
        var r := FeedAll(cfg, s1, keys[1..]);
        RunKeepsCols(t, s.out);
        RunKeepsCols(t, s1.out);
        RunKeepsCols(t, r.out);
        if NoClearScreen(KeysFed(cfg, s, keys)) {
          TwiceUntouched(cfg, Run(t, s.out), Run(t, s1.out), Run(t, r.out), top);
        }
      }
    }
  }

  lemma NothingFed(cfg: Config, s: Line, top: nat)
    requires cfg.Valid() && Good(cfg, s)
    ensures RowAfter(cfg, s, [], top) == top
  {}

  /** A terminal ready for a session: the cursor starts a row, and nothing is shown from there on. */
  ghost predicate Ready(cfg: Config, t: Term, top: nat) {
    t.cols == cfg.cols && Cleared(t, top)
  }

  /** What the user sees of the line: the text, and the cursor on its character. */
  ghost predicate Displayed(cfg: Config, t: Term, top: nat, z: Zipper)
    requires cfg.Valid() && t.cols == cfg.cols
  {
    if cfg.multi then ShowsText(t, top, cfg.prompt + z.Text()) && CursorAt(t, top, |cfg.prompt| + |z.left|)
    else SingleShown(t, top, cfg.prompt, z.Text(), |z.left|) && SingleCursor(t, cfg.prompt, |z.left|)
  }

  /** A line drawn is displayed. */
  lemma DrawnIsDisplayed(cfg: Config, t: Term, top: nat, s: Line)
    requires cfg.Valid() && t.cols == cfg.cols && Drawn(cfg, t, top, Visible(cfg, s), s.oldrows, s.oldpos)
    ensures Displayed(cfg, t, top, Visible(cfg, s))
  {}

  lemma NothingPreviewed(cfg: Config, s: Line)
    requires !s.inCompletion
    ensures Visible(cfg, s) == s.z
  {}

  /** A run of keys from the start of a session: the line is on the screen, and nothing else was
      touched, unless the user asked for an empty screen. */
  ghost predicate DisplayedAfter(cfg: Config, t: Term, top: nat, hist: seq<string>, keys: seq<Input>)
    requires cfg.Valid() && t.cols == cfg.cols && hist != []
  {
    var s := Start(cfg, hist);
    var r := FeedAll(cfg, s, keys);
    var u := Run(t, r.out);
    RunKeepsCols(t, r.out);
    && Displayed(cfg, u, RowAfter(cfg, s, keys, top), Visible(cfg, r))
    && (NoClearScreen(KeysFed(cfg, s, keys)) ==> Untouched(cfg, t, u, top))
  }

  /** Wherever the cursor is in the line, there is a window to show it in: rows without end, or a
      part of the line next to the prompt. */
  ghost predicate WindowsExist(cfg: Config) {
    cfg.multi || forall pos: nat :: HasWindow(cfg.cols, |cfg.prompt|, pos)
  }

  lemma WindowsNeedRoom(cfg: Config)
    ensures WindowsExist(cfg) <==> cfg.multi || |cfg.prompt| < cfg.cols
  {
    forall pos: nat
      ensures HasWindow(cfg.cols, |cfg.prompt|, pos) <==> |cfg.prompt| < cfg.cols
    {
      WindowIff(cfg.cols, |cfg.prompt|, pos);
    }
    assert HasWindow(cfg.cols, |cfg.prompt|, 0) <==> |cfg.prompt| < cfg.cols;
  }

  /** Whatever is typed, recalled or completed, there is a window for the cursor, and after every key
      the screen shows the line. */
  ghost predicate AlwaysDisplayed(cfg: Config)
    requires cfg.CandidatesFit()
  {
    WindowsNeedRoom(cfg);
    && WindowsExist(cfg)
    && forall t: Term, top: nat, hist: seq<string>, keys: seq<Input> ::
         Ready(cfg, t, top) && hist != [] ==> DisplayedAfter(cfg, t, top, hist, keys)
  }

  lemma StartDraws(cfg: Config, t: Term, top: nat, hist: seq<string>)
    requires cfg.Valid() && RoomForPrompt(cfg) && Ready(cfg, t, top)
    ensures var s := Start(cfg, hist);
            OnScreen(cfg, t, top, s, s.z) && Untouched(cfg, t, Run(t, s.out), top)
  {
    if cfg.multi {
      StartLinks(t, top, cfg.prompt);
      assert cfg.prompt + Zipper("", "").Text() == cfg.prompt;
    } else {
      PrintInRow(t, cfg.prompt);
      assert cfg.prompt + Window(cfg.cols, |cfg.prompt|, "", 0) == cfg.prompt;
    }
  }

  lemma RoomSuffices(cfg: Config, t: Term, top: nat, hist: seq<string>, keys: seq<Input>)
    requires cfg.Valid() && RoomForPrompt(cfg) && Ready(cfg, t, top) && hist != []
    ensures DisplayedAfter(cfg, t, top, hist, keys)
  {
    hide RowAfter, KeysFed, NoClearScreen;
    var s := Start(cfg, hist);
    StartDraws(cfg, t, top, hist);
    RunDraws(cfg, t, top, s, keys);
    var r := FeedAll(cfg, s, keys);
    RunKeepsCols(t, s.out);
    RunKeepsCols(t, r.out);
    if NoClearScreen(KeysFed(cfg, s, keys)) {
      TwiceUntouched(cfg, t, Run(t, s.out), Run(t, r.out), top);
    }
  }

  function Typed(c: char): Input {
    Input(c, NUL, NUL, NUL)
  }

  /** The first refresh of a prompt wider than the terminal cleans and draws from the row the
      prompt ended in, not the one it started in. */
  lemma FirstRefreshTooLow(t: Term, top: nat, prompt: string, buf: string)
    requires Cleared(t, top) && |prompt| > t.cols && buf != ""
    ensures var u := Run(Run(t, Texts(prompt)), RefreshOut(ALL, t.cols, prompt, buf, |buf|, 0, 0));
            !CursorAt(u, top, |prompt| + |buf|)
  {
    hide Run, ShowsText, WriteOut, NewRows;
    PrintOnBlank(t, top, prompt);
    RowsUsedIsLastRow(t.cols, |prompt|);
    var v := Run(t, Texts(prompt));
    var low := top + RowOf(t.cols, |prompt| - 1);
    BlankBelow(v, top, prompt, RowOf(t.cols, |prompt| - 1) + 1);
    RunTwo(v, Cr, EraseRight);
    var start := [Cr, EraseRight];
    var write := WriteOut(t.cols, prompt, buf, |buf|);
    assert RefreshOut(ALL, t.cols, prompt, buf, |buf|, 0, 0) == start + write;
    RunAppend(v, start, write);
    WriteShows(Run(v, start), low, prompt, buf, |buf|);
  }

  lemma OneKey(cfg: Config, s: Line, k: Input)
    requires cfg.Valid() && Good(cfg, s)
    ensures FeedAll(cfg, s, [k]) == Feed(cfg, s, k).0 && KeysFed(cfg, s, [k]) == [k]
  {
    hide Feed;
    FeedKeepsGood(cfg, s, k);
    assert [k][1..] == [];
  }

  lemma TwoKeys(cfg: Config, s: Line, k: Input, l: Input)
    requires cfg.Valid() && Good(cfg, s) && Feed(cfg, s, k).1.More? && Feed(cfg, s, k).0.idx < |Feed(cfg, s, k).0.hist|
    ensures FeedAll(cfg, s, [k, l]) == Feed(cfg, Feed(cfg, s, k).0, l).0 && KeysFed(cfg, s, [k, l]) == [k, l]
  {
    hide Feed;
    FeedKeepsGood(cfg, s, k);
    OneKey(cfg, Feed(cfg, s, k).0, l);
    assert [k, l][1..] == [l];
    assert [k] + [l] == [k, l];
  }

  /** A multi-line prompt that fills its row exactly: a character typed and deleted again leaves the
      cursor on the prompt. A wider one: the first character is drawn in the wrong row. */
  lemma WidePromptFails(cfg: Config, t: Term, top: nat, hist: seq<string>)
    requires cfg.Valid() && cfg.multi && |cfg.prompt| >= cfg.cols && Ready(cfg, t, top) && hist != []
    ensures !DisplayedAfter(cfg, t, top, hist,
                            if |cfg.prompt| > cfg.cols then [Typed('a')] else [Typed('a'), Typed(BACKSPACE)])
  {
    if |cfg.prompt| > cfg.cols {
      WiderPromptFails(cfg, t, top, hist);
    } else {
      FullPromptFails(cfg, t, top, hist);
    }
  }

  lemma WiderPromptFails(cfg: Config, t: Term, top: nat, hist: seq<string>)
    requires cfg.Valid() && cfg.multi && |cfg.prompt| > cfg.cols && Ready(cfg, t, top) && hist != []
    ensures !DisplayedAfter(cfg, t, top, hist, [Typed('a')])
  {
    hide Run, RefreshOut, Feed, FeedAll, ShowsText, Untouched;
    var s := Start(cfg, hist);
    var s1 := Edit(cfg, s, Zipper("a", ""));
    OneKey(cfg, s, Typed('a'));
    TypedFirst(cfg, s);
    var refresh := RefreshOut(ALL, cfg.cols, cfg.prompt, "a", 1, 0, 0);
    assert Zipper("a", "").Text() == "a";
    assert s1.out == s.out + refresh;
    RunAppend(t, s.out, refresh);
    FirstRefreshTooLow(t, top, cfg.prompt, "a");
    assert NoClearScreen([Typed('a')]);
  }

  lemma FullPromptFails(cfg: Config, t: Term, top: nat, hist: seq<string>)
    requires cfg.Valid() && cfg.multi && |cfg.prompt| == cfg.cols && Ready(cfg, t, top) && hist != []
    ensures !DisplayedAfter(cfg, t, top, hist, [Typed('a'), Typed(BACKSPACE)])
  {
    hide Run, RefreshOut, Feed, FeedAll, ShowsText, Untouched, SameAbove;
    var s := Start(cfg, hist);
    var s1 := Edit(cfg, s, Zipper("a", ""));
    var s2 := Edit(cfg, s1, Zipper("", ""));
    TypedFirst(cfg, s);
    DeletedAgain(cfg, s1);
    TwoKeys(cfg, s, Typed('a'), Typed(BACKSPACE));
    assert NoClearScreen([Typed('a'), Typed(BACKSPACE)]);
    StartLinks(t, top, cfg.prompt);
    FullPromptRuns(cfg, t, top, s, s1, s2);
  }

  lemma FullPromptRuns(cfg: Config, t: Term, top: nat, s: Line, s1: Line, s2: Line)
    requires cfg.Valid() && cfg.multi && |cfg.prompt| == cfg.cols == t.cols && s.oldrows == s.oldpos == 0
    requires s1 == Edit(cfg, s, Zipper("a", "")) && s2 == Edit(cfg, s1, Zipper("", ""))
    requires Run(t, s.out).cols == t.cols && Linked(Run(t, s.out), top, |cfg.prompt|, 0, 0)
    ensures !CursorAt(Run(t, s2.out), top, |cfg.prompt|)
  {
    hide Run, RefreshOut, ShowsText, SameAbove, Linked, CursorAt;
    var first := RefreshOut(ALL, cfg.cols, cfg.prompt, "a", 1, 0, 0);
    assert Zipper("a", "").Text() == "a" && Zipper("", "").Text() == "";
    RunAppend(t, s.out, first);
    RefreshShows(Run(t, s.out), top, cfg.prompt, "a", 1, 0, 0);
    var second := RefreshOut(ALL, cfg.cols, cfg.prompt, "", 0, s1.oldrows, s1.oldpos);
    RunAppend(t, s1.out, second);
    RefreshShows(Run(t, s1.out), top, cfg.prompt, "", 0, s1.oldrows, s1.oldpos);
    RowColDivMod(cfg.cols, cfg.cols);
  }

  lemma DeletedAgain(cfg: Config, s: Line)
    requires cfg.Valid() && s.idx < |s.hist| && s.z == Zipper("a", "") && !s.inCompletion
    ensures Feed(cfg, s, Typed(BACKSPACE)).0 == Edit(cfg, s, Zipper("", ""))
  {
    hide Refresh;
    assert s.z.Backspace() == Zipper("", "");
    assert KeyAction(s.z, BACKSPACE) == EditLine(true, Zipper("", ""));
  }

  lemma TypedFirst(cfg: Config, s: Line)
    requires cfg.Valid() && Good(cfg, s) && cfg.multi && s.z == Zipper("", "") && !s.inCompletion
    ensures Feed(cfg, s, Typed('a')).0 == Edit(cfg, s, Zipper("a", "")) && Feed(cfg, s, Typed('a')).1.More?
  {
    hide Refresh;
    assert s.z.Insert('a') == Zipper("a", "");
    assert KeyAction(s.z, 'a') == InsertChar('a');
  }

  /** An empty single-line prompt: going home leaves the cursor in column 1. */
  lemma EmptyPromptFails(cfg: Config, t: Term, top: nat, hist: seq<string>)
    requires cfg.Valid() && !cfg.multi && cfg.prompt == "" && cfg.cols > 1 && Ready(cfg, t, top) && hist != []
    ensures !DisplayedAfter(cfg, t, top, hist, [Typed(CTRL_U)])
  {
    var s := Start(cfg, hist);
    var s1 := Edit(cfg, s, Zipper("", ""));
    OneKey(cfg, s, Typed(CTRL_U));
    assert Feed(cfg, s, Typed(CTRL_U)).0 == s1;
    RunAppend(t, s.out, SingleOut(ALL, cfg.cols, "", "", 0));
    RunKeepsCols(t, s.out);
    RefreshShowsRow(Run(t, s.out), "", "", 0);
    assert NoClearScreen([Typed(CTRL_U)]);
  }

  /** There is a window for every cursor, and the screen is right after every key of every run,
      exactly when the prompt is narrower than the terminal and, in single-line mode, not empty (or
      the terminal is one column wide). */
  lemma ScreenRightIff(cfg: Config)
    requires cfg.CandidatesFit()
    ensures AlwaysDisplayed(cfg) <==> RoomForPrompt(cfg)
  {
    WindowsNeedRoom(cfg);
    if RoomForPrompt(cfg) {
      forall t: Term, top: nat, hist: seq<string>, keys: seq<Input> | Ready(cfg, t, top) && hist != []
        ensures DisplayedAfter(cfg, t, top, hist, keys)
      {
        RoomSuffices(cfg, t, top, hist, keys);
      }
    } else if cfg.Valid() {
      var t := Term(cfg.cols, (r: nat, c: nat) => BLANK, 0, 0);
      assert Ready(cfg, t, 0);
      if cfg.multi {
        WidePromptFails(cfg, t, 0, [""]);
      } else {
        EmptyPromptFails(cfg, t, 0, [""]);
      }
    }
  }

  /** Hiding takes the line off the screen, so that other output can go where it was; showing it
      again draws it, preview included, from wherever the cursor is then. */
  lemma HideAndShow(cfg: Config, t: Term, top: nat, s: Line, between: seq<Out>, top': nat)
    requires cfg.Valid() && RoomForPrompt(cfg) && t.cols == cfg.cols
    requires Good(cfg, s) && OnScreen(cfg, t, top, s, Visible(cfg, s))
    ensures var h := HideLine(cfg, s);
            && Untouched(cfg, Run(t, s.out), Run(t, h.out), top)
            && (if cfg.multi then Cleared(Run(t, h.out), top)
                else ShowsRow(Run(t, h.out), top, "") && Run(t, h.out).col == 0)
            && (Cleared(Run(t, h.out + between), top') ==>
                var r := ShowLine(cfg, h.(out := h.out + between)); OnScreen(cfg, t, top', r, Visible(cfg, r)))
  {
    var h := HideLine(cfg, s);
    var u := Run(t, s.out);
    var text, pos := s.z.Text(), |s.z.left|;
    if cfg.multi {
      RunAppend(t, s.out, RefreshOut(CLEAN, cfg.cols, cfg.prompt, text, pos, s.oldrows, s.oldpos));
      HideClears(u, top, cfg.prompt, text, pos, s.oldrows, s.oldpos);
    } else {
      RunAppend(t, s.out, SingleOut(CLEAN, cfg.cols, cfg.prompt, text, pos));
      HideClearsRow(u, cfg.prompt, text, pos);
    }
    if Cleared(Run(t, h.out + between), top') {
      ShownAgain(cfg, t, h.(out := h.out + between), top');
    }
  }

  lemma ShownAgain(cfg: Config, t: Term, h: Line, top: nat)
    requires cfg.Valid() && RoomForPrompt(cfg) && t.cols == cfg.cols && Cleared(Run(t, h.out), top)
    ensures var r := ShowLine(cfg, h); OnScreen(cfg, t, top, r, Visible(cfg, r))
  {
    hide Run, RefreshOut, SingleOut, Linked, ShowsText, NewRows, Wrapped;
    var w := Run(t, h.out);
    RunKeepsCols(t, h.out);
    var z := Visible(cfg, h);
    var text, pos := z.Text(), |z.left|;
    if cfg.multi {
      RunAppend(t, h.out, RefreshOut(WRITE, cfg.cols, cfg.prompt, text, pos, h.oldrows, h.oldpos));
      ShowDraws(w, top, cfg.prompt, text, pos, h.oldrows, h.oldpos);
    } else {
      SingleWriteIsAll(cfg.cols, cfg.prompt, text, pos);
      RunAppend(t, h.out, SingleOut(WRITE, cfg.cols, cfg.prompt, text, pos));
      RefreshShowsRow(w, cfg.prompt, text, pos);
    }
  }
}
