/** Splitting a command line into arguments, in place: spaces become terminators, and a quoted last
    argument is compacted where it stands. */
module ScanArgs {
  import opened CStrings
  import Strl

  const MAX_ARGS: nat := 200
  const NULL: int := -1

  predicate IsSpace(c: char) {
    c == ' ' || '\t' <= c <= '\r'
  }

  // ---------- the arguments of a line ----------

  function Spaces(s: string): (n: nat)
    ensures n <= |s| && (forall i :: 0 <= i < n ==> IsSpace(s[i])) && (n < |s| ==> !IsSpace(s[n]))
  {
    if s != "" && IsSpace(s[0]) then 1 + Spaces(s[1..]) else 0
  }

  function Word(s: string): (n: nat)
    ensures n <= |s| && (forall i :: 0 <= i < n ==> !IsSpace(s[i])) && (n < |s| ==> IsSpace(s[n]))
  {
    if s != "" && !IsSpace(s[0]) then 1 + Word(s[1..]) else 0
  }

  /** Where the reader stands after one step into quoted text: past an escaped quote and past a quote. */
  function Advance(s: string): (n: nat)
    requires s != ""
    ensures 1 <= n <= |s|
  {
    var n := if |s| >= 3 && s[1] == '\\' && s[2] == '"' then 3 else 1;
    if n < |s| && s[n] == '"' then n + 1 else n
  }

  /** The text behind the opening quote at the start of `s`: every character the reader stops at. */
  function Unquote(s: string): string
    decreases |s|
  {
    if s == "" || Advance(s) == |s| then "" else [s[Advance(s)]] + Unquote(s[Advance(s)..])
  }

  function Tokens(s: string, room: nat): (r: seq<string>)
    ensures |r| <= room
    decreases room
  {
    if s == "" || room == 0 then []
    else
      var t := s[Spaces(s)..];
      if t != "" && t[0] == '"' then [Unquote(t)]
      else
        var n := Word(t);
        [t[..n]] + Tokens(if n < |t| then t[n + 1..] else "", room - 1)
  }

  // ---------- the scan, in place ----------

  /** The C string `token` stands at `at`. */
  ghost predicate Segment(a: seq<char>, at: int, token: string) {
    0 <= at && at + |token| < |a| && NUL !in token && a[at..at + |token|] == token && a[at + |token|] == NUL
  }

  /** From `pa` on the buffer still holds the line. */
  ghost predicate Unread(a: seq<char>, line: string, pa: nat) {
    pa <= |line| < |a| && NUL !in line && a[pa..|line|] == line[pa..] && a[|line|] == NUL
  }

  /** The arguments found so far: in order, apart, and all before `pa` (or the line is used up). */
  ghost predicate Layout(a: seq<char>, argv: seq<int>, line: string, tokens: seq<string>, pa: nat) {
    && |tokens| <= |argv| && |line| < |a|
    && (forall i :: 0 <= i < |tokens| ==> Segment(a, argv[i], tokens[i]) && End(argv, tokens, i) <= |line|)
    && (forall i :: 0 <= i < |tokens| ==> End(argv, tokens, i) < pa || pa == |line|)
    && (forall i, j :: 0 <= i < j < |tokens| ==> End(argv, tokens, i) < argv[j])
  }

  ghost function End(argv: seq<int>, tokens: seq<string>, i: nat): int
    requires i < |tokens| <= |argv|
  {
    argv[i] + |tokens[i]|
  }

  lemma SegmentKept(a: seq<char>, b: seq<char>, at: int, token: string, from: nat)
    requires Segment(a, at, token) && at + |token| < from <= |a| == |b| && a[..from] == b[..from]
    ensures Segment(b, at, token)
  {
    assert a[..from][at..at + |token|] == a[at..at + |token|];
    assert b[..from][at..at + |token|] == b[at..at + |token|];
    assert a[..from][at + |token|] == b[..from][at + |token|];
  }

  method SkipSpaces(a: array<char>, pa: nat, ghost line: string) returns (r: nat)
    requires Unread(a[..], line, pa)
    ensures r == pa + Spaces(line[pa..]) && r <= |line|
  {
    r := pa;
    AtUnread(a[..], line, pa);
    while IsSpace(a[r])
      invariant pa <= r <= |line| && Spaces(line[pa..]) == r - pa + Spaces(line[r..])
      invariant a[r] == if r < |line| then line[r] else NUL
      decreases |line| - r
    {
      r := r + 1;
      assert line[r - 1..][1..] == line[r..];
      AtUnread(a[..], line, pa);
    }
  }

  lemma AtUnread(a: seq<char>, line: string, pa: nat)
    requires Unread(a, line, pa)
    ensures forall i :: pa <= i <= |line| ==> a[i] == if i < |line| then line[i] else NUL
  {
    assert forall i :: pa <= i < |line| ==> a[i] == a[pa..|line|][i - pa] == line[pa..][i - pa];
  }

  /** What a word leaves behind: itself and its terminator, and the rest unread. */
  lemma WordRead(was: seq<char>, now: seq<char>, line: string, ps: nat, end: nat, pa: nat)
    requires Unread(was, line, ps) && ps <= end <= |line| && pa == (if end < |line| then end + 1 else end)
    requires now == if end < |line| then was[end := NUL] else was
    ensures now[ps..end] == line[ps..end] && now[end] == NUL && now[..ps] == was[..ps] && Unread(now, line, pa)
    ensures NUL !in line[ps..end]
  {
    AtUnread(was, line, ps);
    assert now[pa..|line|] == line[pa..];
    assert forall x :: x in line[ps..end] ==> x in line;
  }

  /** A word: the space behind it, if there is one, becomes its terminator. */
  method ScanWord(a: array<char>, ps: nat, ghost line: string) returns (pa: nat)
    requires Unread(a[..], line, ps)
    modifies a
    ensures var n := Word(line[ps..]);
            && pa == (if ps + n < |line| then ps + n + 1 else |line|)
            && Segment(a[..], ps, line[ps..ps + n]) && Unread(a[..], line, pa)
            && a[..ps] == old(a[..ps])
  {
    AtUnread(a[..], line, ps);
    pa := ps;
    while a[pa] != NUL && !IsSpace(a[pa])
      invariant ps <= pa <= |line| && Word(line[ps..]) == pa - ps + Word(line[pa..])
      decreases |line| - pa
    {
      pa := pa + 1;
      assert line[pa - 1..][1..] == line[pa..];
    }
    ghost var n, was := pa - ps, a[..];
    if IsSpace(a[pa]) {
      a[pa] := NUL;
      pa := pa + 1;
    }
    WordRead(was, a[..], line, ps, ps + n, pa);
  }

  /** The quoted text read so far is `out`, written from `ps` on; what is still to come is behind `pa`.
      At the end of the line a NUL may already have been written behind it. */
  ghost predicate Compacted(a: seq<char>, ps: nat, ndx: nat, out: string, line: string, pa: nat) {
    && ps + ndx <= pa && Unread(a, line, pa) && NUL !in out && |out| <= ndx
    && a[ps..ps + |out|] == out && Unquote(line[ps..]) == out + Unquote(line[pa..])
    && (|out| == ndx || (|out| + 1 == ndx && pa == |line| && a[ps + |out|] == NUL))
  }

  /** Quoted text, compacted to where its opening quote stood; the writer never overtakes the reader. */
  method CompactQuoted(a: array<char>, ps: nat, ghost line: string) returns (pa: nat)
    requires Unread(a[..], line, ps) && ps < |line|
    modifies a
    ensures pa == |line| && Unread(a[..], line, pa)
    ensures Segment(a[..], ps, Unquote(line[ps..])) && ps + |Unquote(line[ps..])| <= |line|
    ensures a[..ps] == old(a[..ps])
  {
    hide Unquote, Advance;
    var ndx := 0;
    pa := ps;
    ghost var out, before := "", a[..ps];
    AtUnread(a[..], line, pa);
    while a[pa] != NUL
      invariant ps <= pa <= |line| && Compacted(a[..], ps, ndx, out, line, pa) && a[..ps] == before
      invariant a[pa] == if pa < |line| then line[pa] else NUL
      decreases |line| - pa
    {
      pa, ndx, out := StepQuoted(a, ps, pa, ndx, line, out);
    }
    UnquoteStep("");
    assert line[pa..] == "" && Unquote(line[ps..]) == out;
    a[ps + ndx] := NUL;
  }

  lemma UnquoteStep(s: string)
    ensures s == "" ==> Unquote(s) == ""
    ensures s != "" ==> var n := Advance(s);
                        Unquote(s) == if n == |s| then "" else [s[n]] + Unquote(s[n..])
  {}

  /** One turn: the reader advances, and the character it stops at is written at `ps + ndx`. */
  method StepQuoted(a: array<char>, ps: nat, pa0: nat, ndx0: nat, ghost line: string, ghost out0: string)
    returns (pa: nat, ndx: nat, ghost out: string)
    requires ps <= pa0 < |line| && Compacted(a[..], ps, ndx0, out0, line, pa0)
    modifies a
    ensures pa0 < pa <= |line| && Compacted(a[..], ps, ndx, out, line, pa) && a[..ps] == old(a[..ps])
    ensures a[pa] == if pa < |line| then line[pa] else NUL
  {
    hide Unquote, Compacted;
    AtCompacted(a[..], ps, ndx0, out0, line, pa0);
    ghost var was := a[..];
    pa := pa0 + 1;
    if a[pa] == '\\' && a[pa + 1] == '"' {
      pa := pa + 2;
    }
    if a[pa] == '"' {
      pa := pa + 1;
    }
    a[ps + ndx0] := a[pa];
    ndx := ndx0 + 1;
    out := if pa < |line| then out0 + [line[pa]] else out0;
    assert a[..] == was[ps + ndx0 := was[pa]];
    StepCompacted(was, ps, ndx0, out0, line, pa0, pa);
    assert a[..ps] == was[..ps];
  }

  lemma AtCompacted(a: seq<char>, ps: nat, ndx: nat, out: string, line: string, pa: nat)
    requires Compacted(a, ps, ndx, out, line, pa)
    ensures ps + ndx <= pa <= |line| < |a|
    ensures forall i :: pa <= i <= |line| ==> a[i] == if i < |line| then line[i] else NUL
  {
    AtUnread(a, line, pa);
  }

  lemma StepCompacted(was: seq<char>, ps: nat, ndx: nat, out: string, line: string, pa0: nat, pa: nat)
    requires pa0 < |line| && Compacted(was, ps, ndx, out, line, pa0) && pa == pa0 + Advance(line[pa0..])
    ensures var out' := if pa < |line| then out + [line[pa]] else out;
            Compacted(was[ps + ndx := was[pa]], ps, ndx + 1, out', line, pa)
  {
    hide Unquote, Advance;
    AtUnread(was, line, pa0);
    var now := was[ps + ndx := was[pa]];
    UnreadFurther(was, now, line, pa0, pa);
    StepText(line, pa0, pa);
    hide Unread;
    var out' := if pa < |line| then out + [line[pa]] else out;
    assert now[ps..ps + |out|] == was[ps..ps + |out|];
    assert now[ps..ps + |out'|] == out';
  }

  /** What one step reads of the text. */
  lemma StepText(line: string, pa0: nat, pa: nat)
    requires pa0 < |line| && pa == pa0 + Advance(line[pa0..])
    ensures Unquote(line[pa0..]) == (if pa < |line| then [line[pa]] else "") + Unquote(line[pa..])
  {
    hide Unquote, Advance;
    var s := line[pa0..];
    UnquoteStep(s);
    UnquoteStep("");
    assert s[pa - pa0..] == line[pa..];
  }

  lemma UnreadFurther(was: seq<char>, now: seq<char>, line: string, pa0: nat, pa: nat)
    requires Unread(was, line, pa0) && pa0 <= pa <= |line| && |now| == |was|
    requires forall i :: pa <= i < |was| ==> now[i] == was[i]
    ensures Unread(now, line, pa)
  {
    AtUnread(was, line, pa0);
    assert now[pa..|line|] == line[pa..];
  }

  lemma LineUnread(a: seq<char>)
    requires NUL in a
    ensures Unread(a, CStr(a), 0)
  {
    var line := CStr(a);
    Strl.CStrInside(a);
    assert a[0..|line|] == line == line[0..];
  }

  /** One argument taken off the front of what is left of the line. */
  lemma TokenStep(s: string, room: nat)
    requires s != "" && room > 0
    ensures var t := s[Spaces(s)..]; var n := Word(t);
            if t != "" && t[0] == '"' then Tokens(s, room) == [Unquote(t)]
            else Tokens(s, room) == [t[..n]] + Tokens(if n < |t| then t[n + 1..] else "", room - 1)
  {
    hide Unquote, Word, Spaces;
  }

  lemma NoTokens(s: string, room: nat)
    requires s == "" || room == 0
    ensures Tokens(s, room) == []
  {}

  /** A new argument behind the others. */
  lemma LayoutGrows(a: seq<char>, b: seq<char>, argv: seq<int>, argv': seq<int>, line: string, tokens: seq<string>,
                    pa: nat, ps: nat, token: string, pa': nat)
    requires Layout(a, argv, line, tokens, pa) && pa < |line| && pa <= ps <= pa'
    requires |a| == |b| && ps <= |a| && a[..ps] == b[..ps]
    requires |argv| == |argv'| && |tokens| < |argv| && argv' == argv[|tokens| := ps]
    requires Segment(b, ps, token) && ps + |token| <= |line| && (ps + |token| < pa' || pa' == |line|)
    ensures Layout(b, argv', line, tokens + [token], pa')
  {
    var all := tokens + [token];
    forall i | 0 <= i < |all|
      ensures Segment(b, argv'[i], all[i])
      ensures End(argv', all, i) <= |line| && (End(argv', all, i) < pa' || pa' == |line|)
    {
      if i < |tokens| {
        SegmentKept(a, b, argv[i], tokens[i], ps);
      }
    }
  }

  /** One turn of the scan: spaces, then a word or quoted text. */
  method ScanOne(a: array<char>, argv: array<int>, argc: nat, from: nat, ghost line: string, ghost tokens: seq<string>)
    returns (pa: nat, ghost token: string)
    requires Unread(a[..], line, from) && from < |line| && argc == |tokens| < argv.Length
    requires Layout(a[..], argv[..], line, tokens, from)
    modifies a, argv
    ensures from <= pa && Unread(a[..], line, pa) && Layout(a[..], argv[..], line, tokens + [token], pa)
    ensures forall room: nat :: room > 0 ==> Tokens(line[from..], room) == [token] + Tokens(line[pa..], room - 1)
  {
    hide Tokens, Unquote, Word, Spaces, Layout, Segment;
    ghost var before, was, rest := a[..], argv[..], line[from..];
    var ps := SkipSpaces(a, from, line);
    ghost var t := rest[Spaces(rest)..];
    assert t == line[ps..];
    AtUnread(before, line, from);
    assert Unread(a[..], line, ps) by {
      assert a[ps..|line|] == a[from..|line|][ps - from..];
    }
    if a[ps] == '"' {
      token := Unquote(t);
      pa := CompactQuoted(a, ps, line);
    } else {
      token := t[..Word(t)];
      assert line[ps..ps + Word(t)] == token;
      pa := ScanWord(a, ps, line);
    }
    argv[argc] := ps;
    assert argv[..] == was[argc := ps];
    LayoutGrows(before, a[..], was, argv[..], line, tokens, from, ps, token, pa);
    OneToken(line, from, token, pa);
  }

  lemma OneToken(line: string, from: nat, token: string, pa: nat)
    requires from < |line|
    requires var ps := from + Spaces(line[from..]); var t := line[ps..];
             if t != "" && t[0] == '"' then token == Unquote(t) && pa == |line|
             else token == t[..Word(t)] && pa == if Word(t) < |t| then ps + Word(t) + 1 else |line|
    ensures pa <= |line| && forall room: nat :: room > 0 ==>
              Tokens(line[from..], room) == [token] + Tokens(line[pa..], room - 1)
  {
    hide Tokens, Unquote, Word, Spaces;
    var rest := line[from..];
    var ps := from + Spaces(rest);
    assert rest[Spaces(rest)..] == line[ps..];
    assert Word(line[ps..]) < |line[ps..]| ==> line[ps..][Word(line[ps..]) + 1..] == line[ps + Word(line[ps..]) + 1..];
    assert line[|line|..] == "";
    forall room: nat | room > 0
      ensures Tokens(rest, room) == [token] + Tokens(line[pa..], room - 1)
    {
      TokenStep(rest, room);
      NoTokens("", room - 1);
    }
  }

  /** The scan: `argv[..argc]` are the arguments of the line, laid out in order inside the buffer. */
  method Scan(arguments: array<char>, argv: array<int>) returns (argc: nat)
    requires NUL in arguments[..] && argv.Length == MAX_ARGS
    modifies arguments, argv
    ensures var line := old(CStr(arguments[..])); var tokens := Tokens(line, MAX_ARGS - 2);
            && argc == |tokens| <= MAX_ARGS - 2 && argv[argc] == NULL
            && Layout(arguments[..], argv[..], line, tokens, |line|)
  {
    hide Tokens, CStr, Layout;
    ghost var line := CStr(arguments[..]);
    LineUnread(arguments[..]);
    ghost var tokens := [];
    argc := 0;
    var pa := 0;
    assert line[0..] == line;
    NothingYet(arguments[..], argv[..], line);
    while arguments[pa] != NUL
      invariant Unread(arguments[..], line, pa) && argc == |tokens| <= MAX_ARGS - 2
      invariant Layout(arguments[..], argv[..], line, tokens, pa)
      invariant Tokens(line, MAX_ARGS - 2) == tokens + Tokens(line[pa..], MAX_ARGS - 2 - argc)
      decreases |line| - pa, MAX_ARGS - argc
    {
      if argc >= MAX_ARGS - 2 {
        break;
      }
      AtUnread(arguments[..], line, pa);
      ghost var token;
      pa, token := ScanOne(arguments, argv, argc, pa, line, tokens);
      tokens := tokens + [token];
      argc := argc + 1;
    }
    AtUnread(arguments[..], line, pa);
    NoTokens(line[pa..], MAX_ARGS - 2 - argc);
    assert tokens + [] == tokens;
    LayoutEnds(arguments[..], argv[..], line, tokens, pa, argc);
    ghost var was := argv[..];
    argv[argc] := NULL;
    assert argv[..] == was[argc := NULL];
  }

  lemma NothingYet(a: seq<char>, argv: seq<int>, line: string)
    requires |line| < |a|
    ensures Layout(a, argv, line, [], 0)
  {}

  lemma LayoutEnds(a: seq<char>, argv: seq<int>, line: string, tokens: seq<string>, pa: nat, argc: nat)
    requires Layout(a, argv, line, tokens, pa) && argc == |tokens| < |argv|
    ensures Layout(a, argv[argc := NULL], line, tokens, |line|)
  {}

  // ---------- round trip ----------

  predicate IsWord(w: string) {
    w != "" && w[0] != '"' && forall i :: 0 <= i < |w| ==> !IsSpace(w[i])
  }

  /** The text without a quote at its end. */
  function Stem(text: string): (r: string)
    ensures r <= text && |r| + 1 >= |text|
  {
    if text != "" && text[|text| - 1] == '"' then text[..|text| - 1] else text
  }

  /** Text that survives quoting: no quote but perhaps one at the end, and no backslash before that or
      before the closing quote. */
  predicate Quotable(text: string) {
    '"' !in Stem(text) && (Stem(text) != "" ==> Stem(text)[|Stem(text)| - 1] != '\\')
  }

  function Quote(text: string): string {
    "\"" + text + "\""
  }

  /** Words joined by single spaces, then `last`. */
  function Line(words: seq<string>, last: string): string {
    if words == [] then last
    else if |words| == 1 && last == "" then words[0]
    else words[0] + " " + Line(words[1..], last)
  }

  lemma {:induction false} WordIs(s: string, n: nat)
    requires n <= |s| && (forall i :: 0 <= i < n ==> !IsSpace(s[i])) && (n < |s| ==> IsSpace(s[n]))
    ensures Word(s) == n
  {
    if n > 0 {
      WordIs(s[1..], n - 1);
    }
  }

  lemma WordFirst(w: string, rest: string, room: nat)
    requires IsWord(w) && room > 0
    ensures Tokens(w + " " + rest, room) == [w] + Tokens(rest, room - 1)
    ensures Tokens(w, room) == [w]
  {
    var s := w + " " + rest;
    assert forall i :: 0 <= i < |w| ==> s[i] == w[i];
    assert Spaces(s) == 0 && Spaces(w) == 0 && s[0..] == s && w[0..] == w;
    WordIs(s, |w|);
    WordIs(w, |w|);
    assert s[..|w|] == w && s[|w| + 1..] == rest && w[..|w|] == w;
    TokenStep(s, room);
    TokenStep(w, room);
    NoTokens("", room - 1);
  }

  /** Reading on behind any character inside the quotes: never more than the text comes out, and the
      text itself exactly when it is quotable. */
  lemma {:induction false} UnquoteQuoted(c: char, text: string)
    ensures var r := Unquote([c] + text + "\"");
            |r| <= |text| && (r == text <==> Quotable(text))
    decreases |text|
  {
    hide Unquote, Quotable;
    var s := [c] + text + "\"";
    var n := Advance(s);
    UnquoteStep(s);
    AdvanceQuoted(c, text);
    if n <= |text| {
      var rest := text[n..];
      assert s[n] == text[n - 1] && s[n..] == [text[n - 1]] + rest + "\"";
      UnquoteQuoted(text[n - 1], rest);
      assert n == 1 ==> text == [text[0]] + rest;
      assert n == 1 ==> ([text[0]] + Unquote(s[n..]))[1..] == Unquote(s[n..]);
    } else if n == |text| + 1 {
      assert s[n..] == "\"" && Advance("\"") == 1;
      UnquoteStep("\"");
    }
  }

  /** Where one step inside the quotes leads, and what that says about the text. */
  lemma AdvanceQuoted(c: char, text: string)
    ensures var n := Advance([c] + text + "\"");
            && (n == 1 ==> text != "" && (Quotable(text) <==> Quotable(text[1..])))
            && (1 < n <= |text| ==> !Quotable(text))
            && (n == |text| + 1 ==> (text == "\"" <==> Quotable(text)))
            && (n == |text| + 2 ==> (text == "" <==> Quotable(text)))
  {
    var s := [c] + text + "\"";
    var n := Advance(s);
    assert forall i :: 0 <= i < |text| ==> s[i + 1] == text[i];
    assert s[|text| + 1] == '"';
    if n == 1 {
      QuotableTail(text);
    } else if |text| >= 2 {
      var k := if s[1] == '\\' && s[2] == '"' then 1 else 0;
      assert text[k] == '"';
      assert k < |Stem(text)| ==> Stem(text)[k] == '"';
    } else if |text| == 1 {
      assert text == [text[0]];
    }
  }

  lemma QuotableTail(text: string)
    requires text != "" && text[0] != '"' && !(text[0] == '\\' && (|text| == 1 || text[1] == '"'))
    ensures Quotable(text) <==> Quotable(text[1..])
  {
    assert Stem(text) == [text[0]] + Stem(text[1..]);
  }

  /** A quoted text scans back to itself exactly when it is quotable. */
  lemma QuotedLast(text: string, room: nat)
    requires room > 0
    ensures Tokens(Quote(text), room) == [text] <==> Quotable(text)
  {
    var s := Quote(text);
    assert Spaces(s) == 0 && s[0..] == s && s == ['"'] + text + "\"";
    UnquoteQuoted('"', text);
    TokenStep(s, room);
  }

  /** A line of words scans back to those words, as far as there is room. */
  lemma {:induction false} WordsRoundTrip(words: seq<string>, room: nat)
    requires forall i :: 0 <= i < |words| ==> IsWord(words[i])
    ensures Tokens(Line(words, ""), room) == Take(words, room)
    decreases |words|
  {
    hide Tokens, IsWord;
    NoTokens(Line(words, ""), 0);
    NoTokens("", room);
    if words != [] && room > 0 {
      WordFirst(words[0], Line(words[1..], ""), room);
      WordsRoundTrip(words[1..], room - 1);
      TakeCons(words[0], words[1..], room);
      assert words == [words[0]] + words[1..];
    }
  }

  lemma TakeCons<T>(x: T, s: seq<T>, n: nat)
    requires n > 0
    ensures Take([x] + s, n) == [x] + Take(s, n - 1)
  {}

  /** A line of words with a quoted text behind them scans back to these arguments, if there is room,
      exactly when the text is quotable. */
  lemma {:induction false} QuotedRoundTrip(words: seq<string>, text: string, room: nat)
    requires (forall i :: 0 <= i < |words| ==> IsWord(words[i])) && |words| < room
    ensures Tokens(Line(words, Quote(text)), room) == words + [text] <==> Quotable(text)
    decreases |words|
  {
    hide Tokens, IsWord, Quotable, Quote;
    if words == [] {
      QuotedLast(text, room);
      assert words + [text] == [text];
    } else {
      QuotedRoundTrip(words[1..], text, room - 1);
      QuotedStep(words, text, room);
    }
  }

  lemma QuotedStep(words: seq<string>, text: string, room: nat)
    requires words != [] && IsWord(words[0]) && |words| < room
    ensures Tokens(Line(words, Quote(text)), room) == words + [text] <==>
            Tokens(Line(words[1..], Quote(text)), room - 1) == words[1..] + [text]
  {
    hide Tokens, IsWord, Quote, Line;
    var tail, rest := words[1..], Line(words[1..], Quote(text));
    LineCons(words, text);
    WordFirst(words[0], rest, room);
    SameTail(words[0], Tokens(rest, room - 1), tail + [text]);
    assert words + [text] == [words[0]] + (tail + [text]);
  }

  lemma LineCons(words: seq<string>, text: string)
    requires words != []
    ensures Line(words, Quote(text)) == words[0] + " " + Line(words[1..], Quote(text))
  {
    QuoteNotEmpty(text);
  }

  lemma SameTail<T>(x: T, s: seq<T>, t: seq<T>)
    ensures [x] + s == [x] + t <==> s == t
  {
    assert ([x] + s)[1..] == s && ([x] + t)[1..] == t;
  }

  lemma QuoteNotEmpty(text: string)
    ensures Quote(text) != ""
  {}

  /** A backslash before the closing quote, or a quote inside, is lost. */
  lemma NotQuotable(room: nat)
    requires room > 0
    ensures Tokens(Quote("a\\"), room) != ["a\\"] && Tokens(Quote("a\"b"), room) != ["a\"b"]
  {
    QuotedLast("a\\", room);
    QuotedLast("a\"b", room);
    assert Stem("a\"b")[1] == '"';
  }

  // ---------- words with any white space between them ----------

  /** White space, a word, and the one character of white space behind it. */
  datatype Spaced = Spaced(gap: string, word: string, behind: char) {
    predicate Valid() {
      IsWord(word) && IsSpace(behind) && forall i :: 0 <= i < |gap| ==> IsSpace(gap[i])
    }
  }

  function Written(items: seq<Spaced>): string {
    if items == [] then "" else items[0].gap + items[0].word + [items[0].behind] + Written(items[1..])
  }

  function Words(items: seq<Spaced>): (words: seq<string>)
    ensures |words| == |items|
  {
    seq(|items|, i requires 0 <= i < |items| => items[i].word)
  }

  lemma {:induction false} SpacesIs(s: string, n: nat)
    requires n <= |s| && (forall i :: 0 <= i < n ==> IsSpace(s[i])) && (n < |s| ==> !IsSpace(s[n]))
    ensures Spaces(s) == n
  {
    if n > 0 {
      SpacesIs(s[1..], n - 1);
    }
  }

  lemma SpacedFirst(item: Spaced, rest: string, room: nat)
    requires item.Valid() && room > 0
    ensures Tokens(item.gap + item.word + [item.behind] + rest, room) == [item.word] + Tokens(rest, room - 1)
  {
    hide Tokens, Unquote;
    var gap, w := item.gap, item.word;
    var t := w + [item.behind] + rest;
    var s := gap + w + [item.behind] + rest;
    assert s == gap + t;
    assert w[0] == t[0] && !IsSpace(t[0]);
    SpacesIs(s, |gap|);
    assert s[|gap|..] == t;
    assert forall i :: 0 <= i < |w| ==> t[i] == w[i];
    WordIs(t, |w|);
    assert t[..|w|] == w && t[|w| + 1..] == rest;
    TokenStep(s, room);
  }

  /** Words with any white space before and between them, and one character of it at the end, scan back
      to those words. More white space at the end is taken for one more, empty, argument. */
  lemma {:induction false} SpacedRoundTrip(items: seq<Spaced>, gap: string, room: nat)
    requires (forall i :: 0 <= i < |items| ==> items[i].Valid()) && forall i :: 0 <= i < |gap| ==> IsSpace(gap[i])
    ensures Tokens(Written(items) + gap, room) == Take(Words(items) + (if gap == "" then [] else [""]), room)
    decreases |items|
  {
    hide Tokens, Spaced.Valid;
    var all := Words(items) + (if gap == "" then [] else [""]);
    NoTokens(Written(items) + gap, 0);
    if room == 0 {
    } else if items == [] {
      assert Written(items) + gap == gap;
      NoTokens("", room);
      if gap != "" {
        GapOnly(gap, room);
      }
    } else {
      var first, more := items[0], Written(items[1..]);
      assert Written(items) + gap == first.gap + first.word + [first.behind] + (more + gap);
      SpacedFirst(first, more + gap, room);
      SpacedRoundTrip(items[1..], gap, room - 1);
      assert all == [first.word] + (Words(items[1..]) + (if gap == "" then [] else [""]));
      TakeCons(first.word, Words(items[1..]) + (if gap == "" then [] else [""]), room);
    }
  }

  lemma GapOnly(gap: string, room: nat)
    requires gap != "" && room > 0 && forall i :: 0 <= i < |gap| ==> IsSpace(gap[i])
    ensures Tokens(gap, room) == [""]
  {
    hide Unquote;
    SpacesIs(gap, |gap|);
    assert gap[|gap|..] == "";
    TokenStep(gap, room);
    NoTokens("", room - 1);
  }

  /** The words of a command line put together again scan back to the same words. */
  lemma RejoinedRoundTrip(words: seq<string>, room: nat)
    requires forall i :: 0 <= i < |words| ==> IsWord(words[i])
    ensures Tokens(Strl.Join(words), room) == Take(words, room)
  {
    WordsRoundTrip(words, room);
    JoinIsLine(words);
  }

  lemma {:induction false} JoinIsLine(words: seq<string>)
    requires forall i :: 0 <= i < |words| ==> IsWord(words[i])
    ensures Strl.Join(words) == Line(words, "")
    decreases |words|
  {
    hide IsWord;
    if |words| > 1 {
      var n := |words| - 1;
      JoinIsLine(words[..n]);
      LineSnoc(words[..n], words[n]);
      assert words == words[..n] + [words[n]];
    }
  }

  lemma {:induction false} LineSnoc(words: seq<string>, w: string)
    requires words != []
    ensures Line(words + [w], "") == Line(words, "") + " " + w
  {
    var all := words + [w];
    assert all[1..] == words[1..] + [w];
    if |words| == 1 {
      assert all[1..] == [w];
    } else {
      LineSnoc(words[1..], w);
      assert Line(words, "") == words[0] + " " + Line(words[1..], "");
      assert words[0] + " " + (Line(words[1..], "") + " " + w) == words[0] + " " + Line(words[1..], "") + " " + w;
    }
  }

  // ---------- escaped quotes ----------

  const ESCAPED := "\\\""

  /** Pieces of text with an escaped quote between any two. */
  function Escaped(pieces: seq<string>): string {
    if pieces == [] then "" else if |pieces| == 1 then pieces[0] else pieces[0] + ESCAPED + Escaped(pieces[1..])
  }

  function Together(pieces: seq<string>): string {
    if pieces == [] then "" else pieces[0] + Together(pieces[1..])
  }

  /** No quotes in the pieces, no two escaped quotes side by side, and no backslash before the closing
      quote. */
  predicate Separate(pieces: seq<string>) {
    && pieces != [] && (forall i :: 0 <= i < |pieces| ==> '"' !in pieces[i])
    && (forall i :: 0 < i < |pieces| - 1 ==> pieces[i] != "")
    && var last := pieces[|pieces| - 1]; last != "" ==> last[|last| - 1] != '\\'
  }

  /** A piece without its first character. */
  lemma FirstOff(d: char, tail: string, more: seq<string>)
    ensures Escaped([[d] + tail] + more) == [d] + Escaped([tail] + more)
    ensures Together([[d] + tail] + more) == [d] + Together([tail] + more)
  {
    var whole, rest := [[d] + tail] + more, [tail] + more;
    assert whole[1..] == more == rest[1..];
    assert [d] + tail + ESCAPED + Escaped(more) == [d] + (tail + ESCAPED + Escaped(more));
  }

  lemma SeparateOff(d: char, tail: string, more: seq<string>)
    requires Separate([[d] + tail] + more)
    ensures Separate([tail] + more) && d != '"' && (d == '\\' && tail == "" ==> more != [])
    ensures tail != "" ==> tail[0] != '"'
  {
    var whole, rest := [[d] + tail] + more, [tail] + more;
    assert d in whole[0] && forall x :: x in tail ==> x in whole[0];
    assert forall i :: 1 <= i < |whole| ==> whole[i] == rest[i];
    if more == [] && tail != "" {
      assert whole[0][|tail|] == tail[|tail| - 1];
    }
  }

  /** Without the pieces in front. */
  lemma SeparateTail(pieces: seq<string>)
    requires Separate(pieces) && |pieces| > 1
    ensures Separate(pieces[1..])
  {
    assert forall i :: 0 <= i < |pieces| - 1 ==> pieces[1..][i] == pieces[i + 1];
  }

  /** What stands first behind a piece is no quote, unless it is the closing one. */
  lemma NoQuoteNext(tail: string, more: seq<string>)
    requires (tail == "" ==> more != []) && (tail != "" ==> tail[0] != '"')
    ensures (Escaped([tail] + more) + "\"")[0] != '"'
  {
    assert ([tail] + more)[1..] == more;
  }

  /** Behind any character inside the quotes, the pieces are read together: escaped quotes are dropped,
      not unescaped. */
  lemma {:induction false} UnquoteEscaped(c: char, pieces: seq<string>)
    requires pieces != [] && Separate(pieces)
    ensures Unquote([c] + Escaped(pieces) + "\"") == Together(pieces)
    decreases |pieces|, |pieces[0]|
  {
    hide Unquote, Advance, Separate, Escaped, Together;
    if pieces[0] != "" {
      var d, tail, more := pieces[0][0], pieces[0][1..], pieces[1..];
      assert pieces[0] == [d] + tail && pieces == [[d] + tail] + more;
      SeparateOff(d, tail, more);
      FirstOff(d, tail, more);
      InPiece(c, d, tail, more);
      UnquoteEscaped(d, [tail] + more);
    } else if |pieces| == 1 {
      AtEnd(c, pieces);
    } else if pieces[1] == "" {
      AtClosing(c, pieces);
    } else {
      var d, tail, more := pieces[1][0], pieces[1][1..], pieces[2..];
      assert pieces[1] == [d] + tail && pieces[1..] == [[d] + tail] + more;
      SeparateTail(pieces);
      SeparateOff(d, tail, more);
      FirstOff(d, tail, more);
      EmptyFirst(pieces);
      AtEscaped(c, d, Escaped([tail] + more));
      UnquoteEscaped(d, [tail] + more);
    }
  }

  lemma EmptyFirst(pieces: seq<string>)
    requires |pieces| > 1 && pieces[0] == ""
    ensures Escaped(pieces) == ESCAPED + Escaped(pieces[1..]) && Together(pieces) == Together(pieces[1..])
  {
    assert "" + ESCAPED + Escaped(pieces[1..]) == ESCAPED + Escaped(pieces[1..]);
  }

  lemma AtEnd(c: char, pieces: seq<string>)
    requires pieces == [""]
    ensures Unquote([c] + Escaped(pieces) + "\"") == Together(pieces)
  {
    hide Unquote;
    assert [c] + Escaped(pieces) + "\"" == [c] + "" + "\"";
    UnquoteQuoted(c, "");
    assert Together(pieces[1..]) == "" && Together(pieces) == "" + "";
  }

  /** One step inside a piece. */
  lemma InPiece(c: char, d: char, tail: string, more: seq<string>)
    requires Separate([[d] + tail] + more)
    ensures var rest := Escaped([tail] + more);
            Unquote([c] + ([d] + rest) + "\"") == [d] + Unquote([d] + rest + "\"")
  {
    hide Unquote, Separate, Escaped;
    SeparateOff(d, tail, more);
    var rest := Escaped([tail] + more);
    var s := [c] + ([d] + rest) + "\"";
    assert s[1] == d && s[1..] == [d] + rest + "\"" && s[2] == (rest + "\"")[0];
    if d == '\\' {
      NoQuoteNext(tail, more);
    }
    UnquoteStep(s);
  }

  /** Past an escaped quote to the next piece. */
  lemma AtEscaped(c: char, d: char, rest: string)
    requires d != '"'
    ensures Unquote([c] + (ESCAPED + ([d] + rest)) + "\"") == [d] + Unquote([d] + rest + "\"")
  {
    hide Unquote;
    var s := [c] + (ESCAPED + ([d] + rest)) + "\"";
    assert s[1] == '\\' && s[2] == '"' && s[3] == d && s[3..] == [d] + rest + "\"";
    UnquoteStep(s);
  }

  /** An escaped quote right before the closing one. */
  lemma AtClosing(c: char, pieces: seq<string>)
    requires Separate(pieces) && |pieces| > 1 && pieces[0] == pieces[1] == ""
    ensures Unquote([c] + Escaped(pieces) + "\"") == Together(pieces)
  {
    hide Unquote;
    assert |pieces| == 2 && pieces[1..] == [""] && pieces[1..][1..] == [];
    assert Together([]) == "" && Together([""]) == "" && Escaped([""]) == "";
    assert Escaped(pieces) == "" + ESCAPED + "" == ESCAPED && Together(pieces) == "";
    var s := [c] + ESCAPED + "\"";
    assert s[1] == '\\' && s[2] == '"' && s[3] == '"' && |s| == 4;
    UnquoteStep(s);
  }

  /** A quoted text with escaped quotes scans to the text without them. */
  lemma EscapedQuotesDropped(pieces: seq<string>, room: nat)
    requires Separate(pieces) && room > 0
    ensures Tokens(Quote(Escaped(pieces)), room) == [Together(pieces)]
  {
    hide Unquote;
    var s := Quote(Escaped(pieces));
    assert Spaces(s) == 0 && s[0..] == s && s == ['"'] + Escaped(pieces) + "\"";
    UnquoteEscaped('"', pieces);
    TokenStep(s, room);
  }
}
