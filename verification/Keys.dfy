/** What every key does, told by the text of the line, the cursor and the history alone. */
module Keys {
  import opened CStrings
  import opened Zippers
  import opened Editor
  import opened Recall

  function Cursor(s: Line): nat {
    |s.z.left|
  }

  /** The key goes to the line, not to completion. */
  ghost predicate ToLine(cfg: Config, s: Line, k: Input) {
    Good(cfg, s) && (cfg.completer.NoCompleter? || (!s.inCompletion && k.c != TAB))
  }

  /** The session goes on with this text and cursor, one byte read, history and focus as before. */
  ghost predicate Becomes(cfg: Config, s: Line, k: Input, text: string, cursor: nat)
    requires cfg.Valid() && s.idx < |s.hist|
  {
    var (r, o, used) := Feed(cfg, s, k);
    && r.z.Text() == text && Cursor(r) == cursor && r.hist == s.hist && r.idx == s.idx
    && !r.inCompletion && o == More && used == 1
  }

  /** The keys the switch of the editor names; every other one is put into the line. */
  const NAMED: set<char> := {CTRL_A, CTRL_B, CTRL_C, CTRL_D, CTRL_E, CTRL_F, CTRL_H, CTRL_K, CTRL_L, ENTER,
                             CTRL_N, CTRL_P, CTRL_T, CTRL_U, CTRL_W, ESC, BACKSPACE}

  /** The line after an edit, whether or not it is redrawn. */
  lemma EditBecomes(cfg: Config, s: Line, k: Input, z: Zipper, changed: bool)
    requires cfg.Valid() && ToLine(cfg, s, k) && k.c !in {ENTER, CTRL_C, ESC} && (k.c == CTRL_D ==> s.z.Text() != "")
    requires KeyAction(s.z, k.c) == EditLine(changed, z) && (!changed ==> z == s.z)
    ensures Becomes(cfg, s, k, z.Text(), |z.left|)
  {
    hide Refresh, KeyAction;
  }

  /** Left, right, start and end: the cursor moves, the text stays. Ctrl-L moves nothing. */
  lemma CursorKeys(cfg: Config, s: Line, k: Input)
    requires cfg.Valid() && ToLine(cfg, s, k)
    ensures var text, p := s.z.Text(), Cursor(s);
            && (k.c == CTRL_B ==> Becomes(cfg, s, k, text, if p > 0 then p - 1 else 0))
            && (k.c == CTRL_F ==> Becomes(cfg, s, k, text, if p < |text| then p + 1 else p))
            && (k.c == CTRL_A ==> Becomes(cfg, s, k, text, 0))
            && (k.c == CTRL_E ==> Becomes(cfg, s, k, text, |text|))
            && (k.c == CTRL_L ==> Becomes(cfg, s, k, text, p))
  {
    hide Becomes, KeyAction;
    var z := s.z;
    MovesKeepText(z);
    MoveActions(z);
    if k.c == CTRL_B {
      EditBecomes(cfg, s, k, z.MoveLeft(), z.left != "");
    } else if k.c == CTRL_F {
      EditBecomes(cfg, s, k, z.MoveRight(), z.right != "");
    } else if k.c == CTRL_A {
      AtHome(z);
      EditBecomes(cfg, s, k, z.Home(), z.left != "");
    } else if k.c == CTRL_E {
      AtEnd(z);
      EditBecomes(cfg, s, k, z.End(), z.right != "");
    } else if k.c == CTRL_L {
      ClearBecomes(cfg, s, k);
    }
  }

  lemma MovesKeepText(z: Zipper)
    ensures z.MoveLeft().Text() == z.MoveRight().Text() == z.Home().Text() == z.End().Text() == z.Text()
  {
    EditsUndone(z, ' ');
  }

  lemma MoveActions(z: Zipper)
    ensures KeyAction(z, CTRL_B) == EditLine(z.left != "", z.MoveLeft())
    ensures KeyAction(z, CTRL_F) == EditLine(z.right != "", z.MoveRight())
    ensures KeyAction(z, CTRL_A) == EditLine(z.left != "", z.Home())
    ensures KeyAction(z, CTRL_E) == EditLine(z.right != "", z.End())
  {}

  lemma AtHome(z: Zipper)
    ensures z.left == "" ==> z.Home() == z
  {
    assert "" + z.right == z.right;
  }

  lemma AtEnd(z: Zipper)
    ensures z.right == "" ==> z.End() == z
  {
    assert z.left + "" == z.left;
  }

  lemma ClearBecomes(cfg: Config, s: Line, k: Input)
    requires cfg.Valid() && ToLine(cfg, s, k) && k.c == CTRL_L
    ensures Becomes(cfg, s, k, s.z.Text(), Cursor(s))
  {
    hide Refresh;
  }

  /** Backspace, Ctrl-H, Ctrl-D, Ctrl-U, Ctrl-K and Ctrl-T: which characters go, or change places. */
  lemma EditKeys(cfg: Config, s: Line, k: Input)
    requires cfg.Valid() && ToLine(cfg, s, k)
    ensures var text, p := s.z.Text(), Cursor(s);
            && (k.c in {BACKSPACE, CTRL_H} ==>
                 if p == 0 then Becomes(cfg, s, k, text, 0)
                 else Becomes(cfg, s, k, text[..p - 1] + text[p..], p - 1))
            && (k.c == CTRL_D && text != "" ==>
                 Becomes(cfg, s, k, if p == |text| then text else text[..p] + text[p + 1..], p))
            && (k.c == CTRL_U ==> Becomes(cfg, s, k, "", 0))
            && (k.c == CTRL_K ==> Becomes(cfg, s, k, text[..p], p))
            && (k.c == CTRL_T ==>
                 if p == 0 || p == |text| then Becomes(cfg, s, k, text, p)
                 else Becomes(cfg, s, k, text[p - 1 := text[p]][p := text[p - 1]],
                              if p == |text| - 1 then p else p + 1))
  {
    hide Becomes, Refresh;
    var z, text, p := s.z, s.z.Text(), Cursor(s);
    assert text[..p] == z.left && text[p..] == z.right;
    if k.c in {BACKSPACE, CTRL_H} {
      assert p > 0 ==> z.Backspace().Text() == text[..p - 1] + text[p..];
      EditBecomes(cfg, s, k, z.Backspace(), z.left != "");
    } else if k.c == CTRL_D && text != "" {
      assert p < |text| ==> z.Delete().Text() == text[..p] + text[p + 1..];
      EditBecomes(cfg, s, k, z.Delete(), z.right != "");
    } else if k.c == CTRL_U {
      EditBecomes(cfg, s, k, Zipper("", ""), true);
    } else if k.c == CTRL_K {
      assert z.KillToEnd().Text() == text[..p];
      EditBecomes(cfg, s, k, z.KillToEnd(), true);
    } else if k.c == CTRL_T {
      if z.left != "" && z.right != "" {
        TransposeSwaps(z);
      }
      EditBecomes(cfg, s, k, z.Transpose(), z.left != "" && z.right != "");
    }
  }

  /** Ctrl-W: however the text left of the cursor is read as a rest, a word and a gap, the rest stays,
      and there is such a reading. */
  lemma PrevWordKey(cfg: Config, s: Line, k: Input)
    requires cfg.Valid() && ToLine(cfg, s, k) && k.c == CTRL_W
    ensures var text, p := s.z.Text(), Cursor(s);
            && (exists rest, word, gap :: LastWord(text[..p], rest, word, gap))
            && forall rest, word, gap :: LastWord(text[..p], rest, word, gap) ==>
                 Becomes(cfg, s, k, rest + text[p..], |rest|)
  {
    hide Becomes, Refresh, LastWord;
    var z, text, p := s.z, s.z.Text(), Cursor(s);
    assert text[..p] == z.left && text[p..] == z.right;
    var r := z.DeletePrevWord();
    PrevWordDeleted(z, r.left);
    EditBecomes(cfg, s, k, r, true);
    forall rest, word, gap | LastWord(text[..p], rest, word, gap)
      ensures Becomes(cfg, s, k, rest + text[p..], |rest|)
    {
      PrevWordDeleted(z, rest);
      assert r == Zipper(rest, z.right);
    }
  }

  /** Any other key is put into the line at the cursor, if there is room, and nowhere otherwise. */
  lemma TextKey(cfg: Config, s: Line, k: Input)
    requires cfg.Valid() && ToLine(cfg, s, k) && k.c !in NAMED
    ensures var text, p := s.z.Text(), Cursor(s);
            if |text| < cfg.buflen then Becomes(cfg, s, k, text[..p] + [k.c] + text[p..], p + 1)
            else Becomes(cfg, s, k, text, p)
  {
    hide Refresh;
    var text, p := s.z.Text(), Cursor(s);
    assert text[..p] == s.z.left && text[p..] == s.z.right;
    assert KeyAction(s.z, k.c) == InsertChar(k.c);
  }

  /** TAB is put into the line like any character when there is nothing to complete. */
  lemma TabWithoutCandidates(cfg: Config, s: Line, k: Input)
    requires cfg.Valid() && Good(cfg, s) && k.c == TAB && cfg.Candidates(s.z.Text()) == []
    ensures var text, p := s.z.Text(), Cursor(s);
            if |text| < cfg.buflen then Becomes(cfg, s, k, text[..p] + [TAB] + text[p..], p + 1)
            else Becomes(cfg, s, k, text, p)
  {
    hide Refresh;
    var text, p := s.z.Text(), Cursor(s);
    assert text[..p] == s.z.left && text[p..] == s.z.right;
    assert KeyAction(s.z, TAB) == InsertChar(TAB);
    assert k.(c := TAB) == k;
  }

  // ---------- history ----------

  /** The session goes on with line `i` of the history, as it was left or cut to the buffer, the cursor
      behind it, and the line left behind stored where it belongs. */
  ghost predicate Recalls(cfg: Config, s: Line, k: Input, i: int)
    requires cfg.Valid() && s.idx < |s.hist|
  {
    var (r, o, used) := Feed(cfg, s, k);
    var from := |s.hist| - 1 - s.idx;
    && 0 <= i < |s.hist| && r.idx == |s.hist| - 1 - i && r.hist == s.hist[from := s.z.Text()]
    && r.z.Text() == Take(s.hist[i], cfg.buflen - 1) && Cursor(r) == |r.z.Text()| && !r.inCompletion && o == More
  }

  /** The session goes on as it was, but for the line being stored in the history. */
  ghost predicate StaysInLine(cfg: Config, s: Line, k: Input)
    requires cfg.Valid() && s.idx < |s.hist|
  {
    var (r, o, used) := Feed(cfg, s, k);
    && r.z == s.z && r.idx == s.idx && |r.hist| == |s.hist| && Doc(r) == Doc(s) && !r.inCompletion && o == More
  }

  /** Up goes to the line before the one in focus, down to the one behind it, if there is one. */
  lemma HistoryKeys(cfg: Config, s: Line, k: Input)
    requires cfg.Valid() && ToLine(cfg, s, k)
    ensures var focus := |s.hist| - 1 - s.idx;
            && (k.c == CTRL_P ==> if focus > 0 then Recalls(cfg, s, k, focus - 1) else StaysInLine(cfg, s, k))
            && (k.c == CTRL_N ==> if s.idx > 0 then Recalls(cfg, s, k, focus + 1) else StaysInLine(cfg, s, k))
  {
    hide Refresh;
    if k.c == CTRL_P {
      assert KeyAction(s.z, k.c) == MoveHistory(true);
      assert Feed(cfg, s, k) == (HistoryMove(cfg, s, true), More, 1);
    } else if k.c == CTRL_N {
      assert KeyAction(s.z, k.c) == MoveHistory(false);
      assert Feed(cfg, s, k) == (HistoryMove(cfg, s, false), More, 1);
    }
  }

  // ---------- escape sequences ----------

  /** The sequence leaves the session as the one-byte key does, screen included. */
  ghost predicate SameAs(cfg: Config, s: Line, k: Input, c: char)
    requires cfg.Valid() && s.idx < |s.hist|
  {
    Feed(cfg, s, k).0 == Feed(cfg, s, Byte(c)).0 && Feed(cfg, s, k).1 == More
  }

  predicate IsSequence(k: Input, s0: char, s1: char) {
    k.c == ESC && k.s0 == s0 && k.s1 == s1
  }

  /** The arrow keys, Home, End and Delete are the control keys; no other sequence does anything.
      Delete on an empty line does nothing, where Ctrl-D would end the session. */
  lemma EscapeKeys(cfg: Config, s: Line, k: Input)
    requires cfg.Valid() && ToLine(cfg, s, k) && k.c == ESC
    ensures IsSequence(k, '[', 'A') ==> SameAs(cfg, s, k, CTRL_P)
    ensures IsSequence(k, '[', 'B') ==> SameAs(cfg, s, k, CTRL_N)
    ensures IsSequence(k, '[', 'C') ==> SameAs(cfg, s, k, CTRL_F)
    ensures IsSequence(k, '[', 'D') ==> SameAs(cfg, s, k, CTRL_B)
    ensures IsSequence(k, '[', 'H') || IsSequence(k, 'O', 'H') ==> SameAs(cfg, s, k, CTRL_A)
    ensures IsSequence(k, '[', 'F') || IsSequence(k, 'O', 'F') ==> SameAs(cfg, s, k, CTRL_E)
    ensures IsSequence(k, '[', '3') && k.s2 == '~' && s.z.Text() != "" ==> SameAs(cfg, s, k, CTRL_D)
    ensures !(k.s0 == '[' && k.s1 in {'A', 'B', 'C', 'D', 'H', 'F'}) && !(k.s0 == 'O' && k.s1 in {'H', 'F'})
            && (!(k.s0 == '[' && k.s1 == '3' && k.s2 == '~') || s.z.Text() == "") ==>
              Feed(cfg, s, k).0 == s && Feed(cfg, s, k).1 == More
    ensures Feed(cfg, s, k).2 == if k.s0 == '[' && '0' <= k.s1 <= '9' then 4 else 3
  {
    hide Edit, HistoryMove, Insert;
    assert s.z.Text() == "" ==> s.z.right == "";
  }

  // ---------- how a session ends ----------

  /** Which keys end the session, and how. What ENTER returns is the line on the screen. */
  lemma Outcomes(cfg: Config, s: Line, k: Input)
    requires cfg.Valid() && Good(cfg, s)
    ensures var o, completing := Feed(cfg, s, k).1, cfg.completer.Completer? && (s.inCompletion || k.c == TAB);
            && (o.Accepted? <==> k.c == ENTER)
            && (k.c == ENTER ==> o == Accepted(Visible(cfg, s).Text()))
            && (o.Interrupted? <==> k.c == CTRL_C)
            && (o.EndOfFile? <==> k.c == CTRL_D && Visible(cfg, s).Text() == "")
            && (o.Failed? <==> completing && k.c as int >= 128)
  {
    hide Refresh, Perform, KeyAction, EscapeAction;
    assert s.z.End().Text() == s.z.Text() by {
      EditsUndone(s.z, ' ');
    }
    var v := Visible(cfg, s);
    assert v.End().Text() == v.Text() by {
      EditsUndone(v, ' ');
    }
  }

  /** A run that ends does so with the last key fed: by ENTER with the line then on the screen, by
      Ctrl-C, by Ctrl-D on an empty line, or by a byte outside ASCII during completion. */
  lemma {:induction false} RunEnds(cfg: Config, s: Line, keys: seq<Input>)
    requires cfg.Valid() && Good(cfg, s) && Ending(cfg, s, keys) != More
    ensures var n := Fed(cfg, s, keys);
            && n > 0 && Ending(cfg, s, keys[..n - 1]) == More
            && var last, k := FeedAll(cfg, s, keys[..n - 1]), keys[n - 1];
            match Ending(cfg, s, keys)
            case Accepted(line) => k.c == ENTER && line == Visible(cfg, last).Text()
            case Interrupted => k.c == CTRL_C
            case EndOfFile => k.c == CTRL_D && Visible(cfg, last).Text() == ""
            case Failed => k.c as int >= 128 && last.inCompletion
            case More => false
    decreases |keys|
  {
    hide Feed, Visible;
    var (s1, r, used) := Feed(cfg, s, keys[0]);
    FeedKeepsGood(cfg, s, keys[0]);
    Outcomes(cfg, s, keys[0]);
    var n := Fed(cfg, s, keys);
    if r.More? {
      RunEnds(cfg, s1, keys[1..]);
      assert keys[..n - 1][1..] == keys[1..][..n - 2];
    } else {
      assert keys[..0] == [];
    }
  }

  // ---------- completion, key by key ----------

  function Byte(c: char): Input {
    Input(c, NUL, NUL, NUL)
  }

  function TabKeys(k: nat): (keys: seq<Input>)
    ensures |keys| == k
  {
    seq(k, _ => Byte(TAB))
  }

  /** TABs, fed one by one, preview what `Recall.TabsPreview` says, and the session goes on. */
  lemma {:induction false} TabsFed(cfg: Config, s: Line, i: nat, k: nat)
    requires cfg.Valid() && Good(cfg, s) && !s.inCompletion && cfg.Candidates(s.z.Text()) != []
    requires Good(cfg, Tabs(cfg, s, i))
    ensures FeedAll(cfg, Tabs(cfg, s, i), TabKeys(k)) == Tabs(cfg, s, i + k)
    ensures Ending(cfg, Tabs(cfg, s, i), TabKeys(k)) == More
    decreases k
  {
    hide Complete, Feed, Tabs, TabKeys;
    if k == 0 {
      assert TabKeys(0) == [];
    } else {
      var t := Tabs(cfg, s, i);
      OneTabLess(k);
      TabOnce(cfg, s, i);
      FeedKeepsGood(cfg, t, Byte(TAB));
      TabsFed(cfg, s, i + 1, k - 1);
    }
  }

  lemma OneTabLess(k: nat)
    requires k > 0
    ensures TabKeys(k)[0] == Byte(TAB) && TabKeys(k)[1..] == TabKeys(k - 1)
  {}

  lemma TabOnce(cfg: Config, s: Line, i: nat)
    requires cfg.Valid() && s.idx < |s.hist| && cfg.Candidates(s.z.Text()) != []
    ensures Feed(cfg, Tabs(cfg, s, i), Byte(TAB)) == (Tabs(cfg, s, i + 1), More, 1)
  {
    hide Refresh;
  }

  /** `k` TABs show the candidates in turn and the line as it was, which stays what it is; ESC goes back
      to it. */
  lemma CompletionKeys(cfg: Config, s: Line, k: nat)
    requires cfg.Valid() && Good(cfg, s) && !s.inCompletion && cfg.Candidates(s.z.Text()) != [] && k > 0
    ensures var cs, r := cfg.Candidates(s.z.Text()), FeedAll(cfg, s, TabKeys(k));
            var i := (k - 1) % (|cs| + 1);
            && Ending(cfg, s, TabKeys(k)) == More
            && r.z == s.z && r.hist == s.hist && r.idx == s.idx
            && Visible(cfg, r) == (if i < |cs| then Zipper(cs[i], "") else s.z)
            && var (u, o, used) := Feed(cfg, r, Byte(ESC));
               u.z == Visible(cfg, u) == s.z && u.hist == s.hist && u.idx == s.idx && !u.inCompletion && o == More
  {
    hide Complete, FeedAll, Ending;
    TabsFed(cfg, s, 0, k);
    TabsPreview(cfg, s, k);
    EscapeRestores(cfg, s, k);
  }

  // ---------- typing and recalling, end to end ----------

  function Bytes(w: string): (keys: seq<Input>)
    ensures |keys| == |w|
  {
    seq(|w|, i requires 0 <= i < |w| => Byte(w[i]))
  }

  predicate Printable(w: string) {
    forall i :: 0 <= i < |w| ==> ' ' <= w[i] < BACKSPACE
  }

  /** Typing a text behind the line and ENTER returns the line with the text. */
  lemma {:induction false} TypeAndEnter(cfg: Config, s: Line, w: string)
    requires cfg.Valid() && Good(cfg, s) && !s.inCompletion && s.z.right == ""
    requires Printable(w) && |s.z.Text() + w| <= cfg.buflen
    ensures Ending(cfg, s, Bytes(w) + [Byte(ENTER)]) == Accepted(s.z.Text() + w)
    decreases |w|
  {
    hide Feed;
    var keys := Bytes(w) + [Byte(ENTER)];
    FeedKeepsGood(cfg, s, keys[0]);
    if w == "" {
      assert keys == [Byte(ENTER)] && s.z.Text() + w == s.z.Text();
      Outcomes(cfg, s, keys[0]);
    } else {
      var text := s.z.Text();
      assert keys[0] == Byte(w[0]) && keys[1..] == Bytes(w[1..]) + [Byte(ENTER)];
      TextKey(cfg, s, keys[0]);
      assert text[..|text|] + [w[0]] + text[|text|..] == text + [w[0]];
      assert text + [w[0]] + w[1..] == text + w;
      TypeAndEnter(cfg, Feed(cfg, s, keys[0]).0, w[1..]);
    }
  }

  function Ups(k: nat): (keys: seq<Input>)
    ensures |keys| == k
  {
    seq(k, _ => Byte(CTRL_P))
  }

  /** `k` times up, from a line as the history has it: the line `k` entries before it. */
  lemma {:induction false} UpsShow(cfg: Config, s: Line, k: nat)
    requires cfg.Valid() && Good(cfg, s) && !s.inCompletion && k < |s.hist| - s.idx
    requires s.z.Text() == s.hist[|s.hist| - 1 - s.idx] && forall l :: l in s.hist ==> |l| < cfg.buflen
    ensures var r := FeedAll(cfg, s, Ups(k));
            r.z.Text() == s.hist[|s.hist| - 1 - s.idx - k] && Ending(cfg, s, Ups(k)) == More
    decreases k
  {
    hide Feed;
    if k > 0 {
      var key, from := Byte(CTRL_P), |s.hist| - 1 - s.idx;
      assert Ups(k)[0] == key && Ups(k)[1..] == Ups(k - 1);
      HistoryKeys(cfg, s, key);
      assert Recalls(cfg, s, key, from - 1);
      FeedKeepsGood(cfg, s, key);
      assert s.hist[from := s.z.Text()] == s.hist && s.hist[from - 1] in s.hist;
      UpsShow(cfg, Feed(cfg, s, key).0, k - 1);
    }
  }

  /** A new session starts with an empty line behind the history, and `k` times up shows the `k`th
      line from its end. */
  lemma UpsFromStart(cfg: Config, lines: seq<string>, k: nat)
    requires cfg.Valid() && k <= |lines| && forall l :: l in lines ==> |l| < cfg.buflen
    ensures var s := Start(cfg, lines + [""]);
            && s.z.Text() == "" && Ending(cfg, s, Ups(k)) == More
            && FeedAll(cfg, s, Ups(k)).z.Text() == if k == 0 then "" else lines[|lines| - k]
  {
    hide FeedAll, Ending;
    UpsShow(cfg, Start(cfg, lines + [""]), k);
  }
}
