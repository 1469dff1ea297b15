/** What one key does to the editing session, as a function on the abstract state. The class in
    LineEditor.dfy is proved to do exactly this; Session.dfy proves what it means for whole runs. */
module Editor {
  import opened Wrap
  import opened Terminal
  import opened MultiLine
  import opened SingleLine
  import opened Zippers
  import opened CStrings

  const CTRL_A: char := 1 as char
  const CTRL_B: char := 2 as char
  const CTRL_C: char := 3 as char
  const CTRL_D: char := 4 as char
  const CTRL_E: char := 5 as char
  const CTRL_F: char := 6 as char
  const CTRL_H: char := 8 as char
  const TAB: char := 9 as char
  const CTRL_K: char := 11 as char
  const CTRL_L: char := 12 as char
  const ENTER: char := 13 as char
  const CTRL_N: char := 14 as char
  const CTRL_P: char := 16 as char
  const CTRL_T: char := 20 as char
  const CTRL_U: char := 21 as char
  const CTRL_W: char := 23 as char
  const ESC: char := 27 as char
  const BACKSPACE: char := 127 as char
  /** A byte read from the terminal, and the three bytes that reads after it would deliver; an
      escape sequence takes two or three of them. */
  datatype Input = Input(c: char, s0: char, s1: char, s2: char)

  /** The deterministic completion callback, if one is set. */
  datatype Completer = NoCompleter | Completer(candidates: string -> seq<string>)

  datatype Config = Config(prompt: string, cols: Positive, buflen: Positive, multi: bool, completer: Completer) {
    function Candidates(text: string): seq<string> {
      if completer.NoCompleter? then [] else completer.candidates(text)
    }

    /** Completion candidates are C strings shorter than `buflen`. */
    ghost predicate CandidatesFit() {
      forall text: string, cand :: cand in Candidates(text) ==> |cand| < buflen && NUL !in cand
    }

    /** What a session needs in order to be defined at all: without room beside the prompt a
        single-line refresh runs out of the buffer (`SingleLine.TrimWindow`). */
    ghost predicate Valid() {
      CandidatesFit() && (multi || |prompt| < cols)
    }
  }

  /** The session: the line, the history (the last entry stands for the line being edited) and the
      entry in focus, what the last refresh left behind, the completion preview, and everything
      written to the terminal so far. */
  datatype Line = Line(z: Zipper, hist: seq<string>, idx: nat, oldrows: nat, oldpos: nat,
                       inCompletion: bool, completionIdx: nat, out: seq<Out>)

  datatype Outcome = More | Accepted(line: string) | Interrupted | EndOfFile | Failed

  ghost predicate Good(cfg: Config, s: Line) {
    && |s.z.Text()| <= cfg.buflen
    && s.idx < |s.hist|
    && (s.inCompletion ==> s.completionIdx <= |cfg.Candidates(s.z.Text())| != 0)
  }

  function Start(cfg: Config, hist: seq<string>): Line {
    Line(Zipper("", ""), hist, 0, 0, 0, false, 0, Texts(cfg.prompt))
  }

  // ---------- refreshing ----------

  function Refresh(cfg: Config, s: Line, flags: Flags, z: Zipper): (r: Line)
    requires cfg.Valid()
    ensures r == s.(out := r.out, oldrows := r.oldrows, oldpos := r.oldpos) && s.out <= r.out
  {
    var text, pos := z.Text(), |z.left|;
    if cfg.multi then
      s.(out := s.out + RefreshOut(flags, cfg.cols, cfg.prompt, text, pos, s.oldrows, s.oldpos),
         oldrows := NewRows(flags, cfg.cols, |cfg.prompt|, |text|, pos), oldpos := pos)
    else
      s.(out := s.out + SingleOut(flags, cfg.cols, cfg.prompt, text, pos))
  }

  /** An edit that redraws the line. */
  function Edit(cfg: Config, s: Line, z: Zipper): Line
    requires cfg.Valid()
  {
    Refresh(cfg, s.(z := z), ALL, z)
  }

  function Insert(cfg: Config, s: Line, c: char): Line
    requires cfg.Valid()
  {
    if |s.z.Text()| >= cfg.buflen then s
    else if s.z.right == "" && !cfg.multi && |cfg.prompt| + |s.z.left| + 1 < cfg.cols then
      s.(z := s.z.Insert(c), out := s.out + [Text(c)])
    else Edit(cfg, s, s.z.Insert(c))
  }

  // ---------- history ----------

  /** The history slot in focus. */
  function Slot(s: Line): nat
    requires s.idx < |s.hist|
  {
    |s.hist| - 1 - s.idx
  }

  /** A reloaded entry is cut to `buflen - 1` characters. */
  function Reload(cfg: Config, entry: string): string {
    if |entry| < cfg.buflen then entry else entry[..cfg.buflen - 1]
  }

  function HistoryMove(cfg: Config, s: Line, up: bool): Line
    requires cfg.Valid() && s.idx < |s.hist|
  {
    if |s.hist| <= 1 then s
    else
      var stored := s.(hist := s.hist[Slot(s) := s.z.Text()]);
      if up && s.idx == |s.hist| - 1 then stored
      else if !up && s.idx == 0 then stored
      else
        var moved := stored.(idx := if up then s.idx + 1 else s.idx - 1);
        Edit(cfg, moved, Zipper(Reload(cfg, moved.hist[Slot(moved)]), ""))
  }

  // ---------- completion ----------

  /** The line on the screen: the candidate previewed, or the line itself. */
  function Visible(cfg: Config, s: Line): Zipper {
    var cs := cfg.Candidates(s.z.Text());
    if s.inCompletion && s.completionIdx < |cs| then Zipper(cs[s.completionIdx], "") else s.z
  }

  function Redraw(cfg: Config, s: Line): Line
    requires cfg.Valid()
  {
    Refresh(cfg, s, ALL, Visible(cfg, s))
  }

  /** The multiplexing API takes the line off the screen and puts it back. */
  function HideLine(cfg: Config, s: Line): Line
    requires cfg.Valid()
  {
    Refresh(cfg, s, CLEAN, s.z)
  }

  function ShowLine(cfg: Config, s: Line): Line
    requires cfg.Valid()
  {
    Refresh(cfg, s, WRITE, Visible(cfg, s))
  }

  /** How a key changes the completion state, and the key left to be handled (NUL for none). */
  function Choose(cfg: Config, s: Line, c: char): (Line, char)
    requires cfg.Valid()
  {
    var cs := cfg.Candidates(s.z.Text());
    if c == TAB then
      (if s.inCompletion then s.(completionIdx := (s.completionIdx + 1) % (|cs| + 1))
       else s.(inCompletion := true, completionIdx := 0), NUL)
    else if c == ESC then
      var s1 := if s.completionIdx < |cs| then Refresh(cfg, s, ALL, s.z) else s;
      (s1.(inCompletion := false), NUL)
    else
      var s1 := if s.completionIdx < |cs| then s.(z := Zipper(cs[s.completionIdx], "")) else s;
      (s1.(inCompletion := false), c)
  }

  /** What a key does in completion mode. */
  function Complete(cfg: Config, s: Line, c: char): (Line, char)
    requires cfg.Valid()
  {
    if cfg.Candidates(s.z.Text()) == [] then (s.(inCompletion := false), c)
    else
      var (s1, c1) := Choose(cfg, s, c);
      (Redraw(cfg, s1), c1)
  }

  // ---------- the key switch ----------

  /** What a key asks for: an edit of the line, redrawn if it changed something, a move in the
      history, a cleared screen, a character to insert, or nothing. */
  datatype Action = EditLine(changed: bool, z: Zipper) | MoveHistory(up: bool) | Clear | InsertChar(c: char) | Nothing

  function KeyAction(z: Zipper, c: char): Action {
    if c == BACKSPACE || c == CTRL_H then EditLine(z.left != "", z.Backspace())
    else if c == CTRL_D then EditLine(z.right != "", z.Delete())
    else if c == CTRL_T then EditLine(z.left != "" && z.right != "", z.Transpose())
    else if c == CTRL_B then EditLine(z.left != "", z.MoveLeft())
    else if c == CTRL_F then EditLine(z.right != "", z.MoveRight())
    else if c == CTRL_P then MoveHistory(true)
    else if c == CTRL_N then MoveHistory(false)
    else if c == CTRL_U then EditLine(true, Zipper("", ""))
    else if c == CTRL_K then EditLine(true, z.KillToEnd())
    else if c == CTRL_A then EditLine(z.left != "", z.Home())
    else if c == CTRL_E then EditLine(z.right != "", z.End())
    else if c == CTRL_L then Clear
    else if c == CTRL_W then EditLine(true, z.DeletePrevWord())
    else InsertChar(c)
  }

  /** The escape sequences, by the bytes behind ESC. */
  function EscapeAction(z: Zipper, k: Input): Action {
    if k.s0 == '[' && '0' <= k.s1 <= '9' then
      if k.s1 == '3' && k.s2 == '~' then EditLine(z.right != "", z.Delete()) else Nothing
    else if k.s0 == '[' && k.s1 == 'A' then MoveHistory(true)
    else if k.s0 == '[' && k.s1 == 'B' then MoveHistory(false)
    else if k.s0 == '[' && k.s1 == 'C' then EditLine(z.right != "", z.MoveRight())
    else if k.s0 == '[' && k.s1 == 'D' then EditLine(z.left != "", z.MoveLeft())
    else if (k.s0 == '[' || k.s0 == 'O') && k.s1 == 'H' then EditLine(z.left != "", z.Home())
    else if (k.s0 == '[' || k.s0 == 'O') && k.s1 == 'F' then EditLine(z.right != "", z.End())
    else Nothing
  }

  function Perform(cfg: Config, s: Line, a: Action): Line
    requires cfg.Valid() && s.idx < |s.hist|
  {
    match a
    case EditLine(changed, z) => if changed then Edit(cfg, s, z) else s
    case MoveHistory(up) => HistoryMove(cfg, s, up)
    case Clear => Edit(cfg, s.(out := s.out + [ClearScreen]), s.z)
    case InsertChar(c) => Insert(cfg, s, c)
    case Nothing => s
  }

  function DropNewest(s: Line): Line {
    if s.hist == [] then s else s.(hist := s.hist[..|s.hist| - 1])
  }

  /** The switch of the key handler: new state, outcome, and bytes consumed. */
  function Act(cfg: Config, s: Line, k: Input): (Line, Outcome, nat)
    requires cfg.Valid() && s.idx < |s.hist|
  {
    if k.c == ENTER then
      var s1 := DropNewest(s);
      var s2 := if cfg.multi && s.z.right != "" then Edit(cfg, s1, s1.z.End()) else s1;
      (s2, Accepted(s2.z.Text()), 1)
    else if k.c == CTRL_C then (s, Interrupted, 1)
    else if k.c == CTRL_D && s.z.Text() == "" then (DropNewest(s), EndOfFile, 1)
    else if k.c == ESC then
      (Perform(cfg, s, EscapeAction(s.z, k)), More, if k.s0 == '[' && '0' <= k.s1 <= '9' then 4 else 3)
    else (Perform(cfg, s, KeyAction(s.z, k.c)), More, 1)
  }

  /** One call of the key handler. A byte outside ASCII is negative as a C char, which the
      completion step takes for a read error. */
  function Feed(cfg: Config, s: Line, k: Input): (Line, Outcome, nat)
    requires cfg.Valid() && s.idx < |s.hist|
  {
    if cfg.completer.Completer? && (s.inCompletion || k.c == TAB) then
      var (s1, c) := Complete(cfg, s, k.c);
      if c as int >= 128 then (s1, Failed, 1)
      else if c == NUL then (s1, More, 1)
      else Act(cfg, s1, k.(c := c))
    else Act(cfg, s, k)
  }

  /** A run of keys, up to the first that ends the session. */
  function FeedAll(cfg: Config, s: Line, keys: seq<Input>): Line
    requires cfg.Valid() && Good(cfg, s)
    decreases |keys|
  {
    if keys == [] then s
    else
      var (s1, r, used) := Feed(cfg, s, keys[0]);
      FeedKeepsGood(cfg, s, keys[0]);
      if r.More? then FeedAll(cfg, s1, keys[1..]) else s1
  }

  /** How many of the keys are fed, the one that ends the session included. */
  function Fed(cfg: Config, s: Line, keys: seq<Input>): (n: nat)
    requires cfg.Valid() && Good(cfg, s)
    ensures n <= |keys|
    decreases |keys|
  {
    if keys == [] then 0
    else
      var (s1, r, used) := Feed(cfg, s, keys[0]);
      FeedKeepsGood(cfg, s, keys[0]);
      if r.More? then 1 + Fed(cfg, s1, keys[1..]) else 1
  }

  /** How the run ends. */
  function Ending(cfg: Config, s: Line, keys: seq<Input>): Outcome
    requires cfg.Valid() && Good(cfg, s)
    decreases |keys|
  {
    if keys == [] then More
    else
      var (s1, r, used) := Feed(cfg, s, keys[0]);
      FeedKeepsGood(cfg, s, keys[0]);
      if r.More? then Ending(cfg, s1, keys[1..]) else r
  }

  // ---------- every key keeps the session well formed ----------

  lemma CompleteKeepsGood(cfg: Config, s: Line, c: char)
    requires cfg.Valid() && Good(cfg, s)
    ensures var (s1, c1) := Complete(cfg, s, c);
            && Good(cfg, s1) && s1.hist == s.hist && s1.idx == s.idx
            && (c1 != NUL ==> !s1.inCompletion && c1 == c)
  {
    hide Refresh;
  }

  /** No key but an insertion makes the line longer. */
  ghost predicate Fits(z: Zipper, a: Action) {
    a.EditLine? ==> |a.z.Text()| <= |z.Text()|
  }

  lemma ActionsFit(z: Zipper, k: Input)
    ensures Fits(z, KeyAction(z, k.c)) && Fits(z, EscapeAction(z, k))
  {}

  lemma PerformKeepsGood(cfg: Config, s: Line, a: Action)
    requires cfg.Valid() && Good(cfg, s) && !s.inCompletion && Fits(s.z, a)
    ensures var r := Perform(cfg, s, a); Good(cfg, r) && !r.inCompletion
  {
    hide Refresh;
  }

  /** Every key that leaves the session open keeps it well formed: the line fits its buffer, the
      focus is in the history, and a preview shows an existing candidate or the line itself. */
  lemma FeedKeepsGood(cfg: Config, s: Line, k: Input)
    requires cfg.Valid() && Good(cfg, s)
    ensures var (s1, r, used) := Feed(cfg, s, k); r.More? ==> Good(cfg, s1)
  {
    hide Perform, KeyAction, EscapeAction, Complete;
    CompleteKeepsGood(cfg, s, k.c);
    if cfg.completer.Completer? && (s.inCompletion || k.c == TAB) {
      var (s1, c) := Complete(cfg, s, k.c);
      if c as int < 128 && c != NUL {
        ActKeepsGood(cfg, s1, k.(c := c));
      }
    } else {
      ActKeepsGood(cfg, s, k);
    }
  }

  lemma ActKeepsGood(cfg: Config, s: Line, k: Input)
    requires cfg.Valid() && Good(cfg, s) && !s.inCompletion
    ensures var (s1, r, used) := Act(cfg, s, k); r.More? ==> Good(cfg, s1) && !s1.inCompletion
  {
    hide Perform, KeyAction, EscapeAction;
    ActionsFit(s.z, k);
    PerformKeepsGood(cfg, s, EscapeAction(s.z, k));
    PerformKeepsGood(cfg, s, KeyAction(s.z, k.c));
  }
}
