/** Stream records: text for the console is sent as one quoted record per line. */
module StreamRecord {
  import opened CStrings
  import opened StringBs
  import opened Framing

  // ---------- what is written ----------

  /** The characters of a line, quotes escaped. */
  function Escape(line: string): (r: string)
    ensures line != "" ==> r != ""
    ensures '\n' !in line ==> '\n' !in r
    ensures NUL !in line ==> NUL !in r
  {
    if line == "" then "" else (if line[0] == '"' then "\\\"" else [line[0]]) + Escape(line[1..])
  }

  /** The record of a complete line; `kind` is '~' or '&'. */
  function Record(kind: char, line: string): string {
    [kind, '"'] + Escape(line) + "\\n" + "\"" + "\n"
  }

  function Records(kind: char, lines: seq<string>): string {
    if lines == [] then "" else Record(kind, lines[0]) + Records(kind, lines[1..])
  }

  /** Everything written for a text. An unfinished last line is not closed properly: the line break
      comes before the closing quote. */
  function Emit(kind: char, text: string): string {
    Records(kind, Lines(text)) + Unfinished(kind, Rest(text))
  }

  function Unfinished(kind: char, line: string): string {
    if line == "" then "" else [kind, '"'] + Escape(line) + "\n\""
  }

  lemma {:induction false} EscapeSnoc(line: string, c: char)
    ensures Escape(line + [c]) == Escape(line) + if c == '"' then "\\\"" else [c]
  {
    if line == "" {
      assert [c][1..] == "";
    } else {
      assert (line + [c])[1..] == line[1..] + [c] && (line + [c])[0] == line[0];
      EscapeSnoc(line[1..], c);
      var e, tail := if line[0] == '"' then "\\\"" else [line[0]], if c == '"' then "\\\"" else [c];
      assert e + (Escape(line[1..]) + tail) == e + Escape(line[1..]) + tail;
    }
  }

  lemma {:induction false} LinesSnoc(s: string, c: char)
    ensures Lines(s + [c]) == Lines(s) + if c == '\n' then [Rest(s)] else []
    ensures Rest(s + [c]) == if c == '\n' then "" else Rest(s) + [c]
    decreases |s|
  {
    hide LineEnd, Lines, Rest;
    var i := LineEnd(s);
    FirstLineOf(s);
    FirstLineOf(s + [c]);
    if i < |s| {
      LineEndSnoc(s, c);
      LinesSnoc(s[i + 1..], c);
    } else {
      LastLineSnoc(s, c);
    }
  }

  lemma LineEndSnoc(s: string, c: char)
    requires LineEnd(s) < |s|
    ensures LineEnd(s + [c]) == LineEnd(s)
    ensures (s + [c])[..LineEnd(s)] == s[..LineEnd(s)]
    ensures (s + [c])[LineEnd(s) + 1..] == s[LineEnd(s) + 1..] + [c]
  {
    hide LineEnd;
    LineEndAt(s + [c], LineEnd(s));
    SnocSlices(s, c, LineEnd(s));
  }

  lemma SnocSlices(s: string, c: char, i: nat)
    requires i < |s|
    ensures (s + [c])[..i] == s[..i] && (s + [c])[i + 1..] == s[i + 1..] + [c]
  {}

  lemma LastLineSnoc(s: string, c: char)
    requires LineEnd(s) == |s|
    ensures Lines(s + [c]) == (if c == '\n' then [s] else []) && Rest(s + [c]) == if c == '\n' then "" else s + [c]
  {
    hide LineEnd, Lines, Rest;
    var t := s + [c];
    LineEndAt(t, if c == '\n' then |s| else |t|);
    assert c == '\n' ==> t[..|s|] == s && t[|s| + 1..] == "";
    LineEndAt("", 0);
    FirstLineOf("");
    FirstLineOf(t);
  }

  lemma {:induction false} RecordsSnoc(kind: char, lines: seq<string>, line: string)
    ensures Records(kind, lines + [line]) == Records(kind, lines) + Record(kind, line)
  {
    hide Record;
    if lines == [] {
      assert [line][1..] == [];
    } else {
      assert (lines + [line])[1..] == lines[1..] + [line];
      RecordsSnoc(kind, lines[1..], line);
    }
  }

  /** Every record stays below the limit of the buffer it is put together in. */
  predicate RecordsFit(text: string) {
    && (forall line :: line in Lines(text) ==> |Escape(line)| + 6 < BIG_LIMIT)
    && |Escape(Rest(text))| + 4 < BIG_LIMIT
  }

  /** So do the records of every beginning of the text. */
  lemma {:induction false} BeginningsFit(text: string, n: nat)
    requires n <= |text| && RecordsFit(text)
    ensures RecordsFit(text[..n])
    decreases |text|
  {
    if n < |text| {
      hide Escape, Lines, Rest;
      var s, c := text[..|text| - 1], text[|text| - 1];
      assert text == s + [c];
      LinesSnoc(s, c);
      EscapeSnoc(Rest(s), c);
      assert s[..n] == text[..n];
      assert forall line :: line in Lines(s) ==> line in Lines(text);
      assert c == '\n' ==> Rest(s) in Lines(text);
      BeginningsFit(s, n);
    } else {
      assert text[..n] == text;
    }
  }

  /** The loop over the formatted text; the result is everything handed to `writetocdt`. */
  method StrRecPrintf(kind: char, text: string) returns (out: string)
    requires kind != NUL && NUL !in text && RecordsFit(text)
    ensures out == Emit(kind, text)
  {
    hide Escape, Rest, Lines, Records, Record, Unfinished;
    var lineout := new StringB.WithCapacity(BIG_LINE_MAX);
    var prepend := [kind, '"'];
    lineout.Append(prepend);
    out := "";
    var ndx := 0;
    NothingWritten(kind);
    assert text[..0] == "" && "" + prepend == prepend + "";
    while ndx < |text|
      invariant ndx <= |text| && lineout.Valid() && fresh(lineout) && fresh(lineout.chars) && lineout.capacity >= 1
      invariant lineout.Contents() == prepend + Escape(Rest(text[..ndx]))
      invariant out == Records(kind, Lines(text[..ndx]))
    {
      var c := text[ndx];
      NextChar(text, ndx);
      BeginningsFit(text, ndx + 1);
      out := WriteChar(lineout, kind, c, out, Lines(text[..ndx]), Rest(text[..ndx]));
      ndx := ndx + 1;
    }
    assert text[..ndx] == text;
    var tail := Finish(lineout, kind, Rest(text));
    out := out + tail;
  }

  lemma NothingWritten(kind: char)
    ensures Escape(Rest("")) == "" && Records(kind, Lines("")) == ""
  {}

  lemma NextChar(text: string, ndx: nat)
    requires ndx < |text|
    ensures var done, next, c := text[..ndx], text[..ndx + 1], text[ndx];
            && Lines(next) == (if c == '\n' then Lines(done) + [Rest(done)] else Lines(done))
            && Rest(next) == (if c == '\n' then "" else Rest(done) + [c])
  {
    hide Escape, Lines, Rest;
    var done, c := text[..ndx], text[ndx];
    assert text[..ndx + 1] == done + [c];
    LinesSnoc(done, c);
    assert Lines(done) + [] == Lines(done);
  }

  /** What is left at the end is written, but only if it is more than the opening of a record. */
  method Finish(lineout: StringB, kind: char, ghost rest: string) returns (tail: string)
    requires lineout.Valid() && lineout.Contents() == [kind, '"'] + Escape(rest) && |Escape(rest)| + 4 < BIG_LIMIT
    modifies lineout, lineout.chars
    ensures tail == Unfinished(kind, rest)
  {
    tail := "";
    EscapeEmpty();
    if lineout.size > 2 {
      lineout.Append("\n\"");
      tail := lineout.Contents();
    }
  }

  /** One character: into the pending record, or closing it. */
  method WriteChar(lineout: StringB, kind: char, c: char, out: string, ghost lines: seq<string>, ghost line: string)
    returns (written: string)
    requires kind != NUL && c != NUL
    requires if c == '\n' then |Escape(line)| + 6 < BIG_LIMIT else |Escape(line + [c])| + 4 < BIG_LIMIT
    requires lineout.Valid() && lineout.capacity >= 1 && lineout.Contents() == [kind, '"'] + Escape(line)
    requires out == Records(kind, lines)
    modifies lineout, lineout.chars
    ensures lineout.Valid() && lineout.capacity >= 1 && (lineout.chars == old(lineout.chars) || fresh(lineout.chars))
    ensures lineout.Contents() == [kind, '"'] + Escape(if c == '\n' then "" else line + [c])
    ensures written == Records(kind, if c == '\n' then lines + [line] else lines)
  {
    hide Escape, Records;
    EscapeSnoc(line, c);
    written := out;
    if c == '"' {
      lineout.Append("\\\"");
    } else if c == '\n' {
      lineout.Append("\\n\"\n");
      RecordsSnoc(kind, lines, line);
      assert lineout.Contents() == Record(kind, line);
      written := out + lineout.Contents();
      Reopen(lineout, [kind, '"']);
      EscapeEmpty();
    } else {
      lineout.AppendChar(c);
    }
  }

  method Reopen(lineout: StringB, prepend: string)
    requires lineout.Valid() && lineout.capacity >= 1 && NUL !in prepend && |prepend| < BIG_LIMIT
    modifies lineout, lineout.chars
    ensures lineout.Valid() && lineout.capacity >= 1 && (lineout.chars == old(lineout.chars) || fresh(lineout.chars))
    ensures lineout.Contents() == prepend
  {
    lineout.Clear(BIG_LIMIT, 0);
    assert lineout.Contents() == "";
    lineout.Append(prepend);
  }

  lemma EscapeEmpty()
    ensures Escape("") == ""
  {}

  // ---------- reading the records back ----------

  datatype Text = Malformed | Text(value: string)

  function Cons(c: char, t: Text): Text {
    if t.Text? then Text([c] + t.value) else Malformed
  }

  /** The text of a quoted body: escaped quotes, newlines and backslashes. */
  function Unescape(body: string): Text
    decreases |body|
  {
    if body == "" then Text("")
    else if body[0] == '\\' then
      if |body| < 2 then Malformed
      else if body[1] == 'n' then Cons('\n', Unescape(body[2..]))
      else if body[1] == '"' || body[1] == '\\' then Cons(body[1], Unescape(body[2..]))
      else Malformed
    else if body[0] == '"' then Malformed
    else Cons(body[0], Unescape(body[1..]))
  }

  /** The body of a physical record, if it is one. */
  function Body(kind: char, line: string): Text {
    if |line| >= 3 && line[0] == kind && line[1] == '"' && line[|line| - 1] == '"' then Text(line[2..|line| - 1])
    else Malformed
  }

  function Join(a: Text, b: Text): Text {
    if a.Text? && b.Text? then Text(a.value + b.value) else Malformed
  }

  /** All records of the output, one per physical line, put together. */
  function Decode(kind: char, out: string): Text
    decreases |out|
  {
    var i := LineEnd(out);
    if out == "" then Text("")
    else if i == |out| then Malformed
    else
      var body := Body(kind, out[..i]);
      var line := if body.Text? then Unescape(body.value) else Malformed;
      var rest := Decode(kind, out[i + 1..]);
      Join(line, rest)
  }

  /** What ends the body of a record, and what it stands for: a line break if the line is complete. */
  function Closing(complete: bool): string {
    if complete then "\\n" else ""
  }

  function Break(complete: bool): string {
    if complete then "\n" else ""
  }

  lemma ClosingRead(complete: bool)
    ensures Unescape(Closing(complete)) == Text(Break(complete))
  {
    assert "\\n"[2..] == "";
  }

  /** Reading a body back never gives more than was written, and gives the line back exactly when it
      has no backslash. */
  lemma {:induction false} UnescapeLine(line: string, complete: bool)
    requires '\n' !in line
    ensures var u := Unescape(Escape(line) + Closing(complete));
            && (u.Text? ==> |u.value| <= |line| + |Break(complete)|)
            && (u == Text(line + Break(complete)) <==> '\\' !in line)
    decreases |line|
  {
    hide Closing, Break, Unescape, Escape;
    var b := Break(complete);
    ClosingRead(complete);
    EscapeFirst(line);
    if line == "" {
      assert "" + Closing(complete) == Closing(complete) && "" + b == b;
    } else {
      UnescapeLine(line[1..], complete);
      assert line == [line[0]] + line[1..];
      if line[0] == '\\' {
        BackslashFirst(line[1..], complete);
        WithFirst(line, Escape(line[1..]), Closing(complete), b);
      } else {
        PlainFirst(line, complete);
      }
    }
  }

  lemma WithFirst(line: string, e: string, closing: string, b: string)
    requires line != ""
    ensures [line[0]] + e + closing == [line[0]] + (e + closing) && line + b == [line[0]] + (line[1..] + b)
    ensures |line| == 1 + |line[1..]|
  {
    assert line == [line[0]] + line[1..];
  }

  /** One character more in front. */
  lemma PlainFirst(line: string, complete: bool)
    requires line != "" && line[0] != '\\'
    requires var rest, b := line[1..], Break(complete); var u := Unescape(Escape(rest) + Closing(complete));
             (u.Text? ==> |u.value| <= |rest| + |b|) && (u == Text(rest + b) <==> '\\' !in rest)
    ensures var b := Break(complete); var u := Unescape(Escape(line) + Closing(complete));
            (u.Text? ==> |u.value| <= |line| + |b|) && (u == Text(line + b) <==> '\\' !in line)
  {
    hide Closing, Break, Unescape, Escape;
    var c, rest, b := line[0], line[1..], Break(complete);
    var tail := Escape(rest) + Closing(complete);
    EscapeFirst(line);
    CharRead(c, tail);
    ConsIs(c, Unescape(tail), rest + b);
    WithFirst(line, Escape(rest), Closing(complete), b);
    assert Escape(line) + Closing(complete) == (if c == '"' then "\\\"" else [c]) + tail;
    assert line == [c] + rest;
  }

  lemma EscapeFirst(line: string)
    ensures Escape(line) ==
              if line == "" then "" else (if line[0] == '"' then "\\\"" else [line[0]]) + Escape(line[1..])
  {}

  /** A character as it is written, read back. */
  lemma CharRead(c: char, tail: string)
    requires c != '\\'
    ensures Unescape((if c == '"' then "\\\"" else [c]) + tail) == Cons(c, Unescape(tail))
  {
    if c == '"' {
      assert ("\\\"" + tail)[2..] == tail;
    } else {
      assert ([c] + tail)[1..] == tail;
    }
  }

  lemma ConsIs(c: char, t: Text, s: string)
    ensures Cons(c, t) == Text([c] + s) <==> t == Text(s)
  {
    if t.Text? && [c] + t.value == [c] + s {
      assert ([c] + t.value)[1..] == ([c] + s)[1..];
    }
  }

  /** An unescaped backslash swallows what comes behind it. */
  lemma {:induction false} BackslashFirst(rest: string, complete: bool)
    requires '\n' !in rest
    ensures var u := Unescape("\\" + (Escape(rest) + Closing(complete)));
            && (u.Text? ==> |u.value| <= |rest| + 1 + |Break(complete)|)
            && u != Text("\\" + (rest + Break(complete)))
    decreases |rest|
  {
    hide Closing, Break, Unescape, Escape;
    EscapeFirst(rest);
    if rest == "" {
      LoneBackslash(complete);
      assert "" + Closing(complete) == Closing(complete) && "" + Break(complete) == Break(complete);
    } else {
      var c, after := rest[0], Escape(rest[1..]) + Closing(complete);
      PairRead(c, after);
      if c == '"' {
        assert "\\" + (Escape(rest) + Closing(complete)) == "\\\\\"" + after;
      } else {
        assert "\\" + (Escape(rest) + Closing(complete)) == "\\" + [c] + after;
        UnescapeLine(rest[1..], complete);
        assert |"\\" + (rest + Break(complete))| == |rest| + 1 + |Break(complete)|;
      }
    }
  }

  /** A backslash and what is written behind it, read back. */
  lemma PairRead(c: char, tail: string)
    ensures c == '"' ==> Unescape("\\\\\"" + tail) == Malformed
    ensures c != '"' ==> var u := Unescape("\\" + [c] + tail);
                         u == Malformed || u == Cons('\n', Unescape(tail)) || u == Cons(c, Unescape(tail))
  {
    if c == '"' {
      var body := "\\\\\"" + tail;
      assert body[2..] == "\"" + tail && Unescape("\"" + tail) == Malformed;
    } else {
      assert ("\\" + [c] + tail)[2..] == tail;
      assert c == 'n' ==> Unescape("\\" + [c] + tail) == Cons('\n', Unescape(tail));
      assert c == '\\' ==> Unescape("\\" + [c] + tail) == Cons(c, Unescape(tail));
    }
  }

  lemma LoneBackslash(complete: bool)
    ensures var u := Unescape("\\" + Closing(complete));
            (u.Text? ==> |u.value| <= 1 + |Break(complete)|) && u != Text("\\" + Break(complete))
  {
    var body := "\\" + Closing(complete);
    if complete {
      assert body == "\\\\n" && body[2..] == "n" && "n"[1..] == "";
      assert Unescape("n") == Text("n");
      assert ("\\" + "\n")[1] == '\n';
    } else {
      assert body == "\\";
    }
  }

  /** The physical line of a record. */
  function Physical(kind: char, line: string): string {
    [kind, '"'] + (Escape(line) + "\\n") + "\""
  }

  lemma RecordIsPhysical(kind: char, line: string, rest: string)
    requires kind != '\n' && '\n' !in line
    ensures var out, i := Record(kind, line) + rest, |Physical(kind, line)|;
            && i < |out| && LineEnd(out) == i && out[..i] == Physical(kind, line) && out[i + 1..] == rest
  {
    hide Escape;
    var physical := Physical(kind, line);
    var out := Record(kind, line) + rest;
    assert out == physical + "\n" + rest;
    assert out[..|physical|] == physical;
    LineEndIs(out, |physical|);
  }

  lemma BodyOf(kind: char, line: string)
    ensures Body(kind, Physical(kind, line)) == Text(Escape(line) + "\\n")
  {
    hide Escape;
    var p, body := Physical(kind, line), Escape(line) + "\\n";
    assert p[2..|p| - 1] == body;
  }

  /** A record is one physical line, and is read on its own. */
  lemma DecodeRecord(kind: char, line: string, rest: string)
    requires kind != '\n' && '\n' !in line
    ensures Decode(kind, Record(kind, line) + rest) == Join(Unescape(Escape(line) + "\\n"), Decode(kind, rest))
  {
    hide Unescape, Escape, Record, Physical, Body, LineEnd;
    RecordIsPhysical(kind, line, rest);
    BodyOf(kind, line);
  }

  lemma EmitStep(kind: char, text: string)
    requires LineEnd(text) < |text|
    ensures var i := LineEnd(text); Emit(kind, text) == Record(kind, text[..i]) + Emit(kind, text[i + 1..])
  {
    hide Record, Unfinished, LineEnd;
    var i := LineEnd(text);
    var rest := text[i + 1..];
    assert Lines(text) == [text[..i]] + Lines(rest) && Rest(text) == Rest(rest);
    assert Lines(text)[1..] == Lines(rest);
    Regroup(Record(kind, text[..i]), Records(kind, Lines(rest)), Unfinished(kind, Rest(rest)));
  }

  lemma Regroup(a: string, b: string, c: string)
    ensures (a + b) + c == a + (b + c)
  {}

  lemma UnfinishedLine(kind: char, line: string)
    requires kind != '\n' && '\n' !in line && line != ""
    ensures Decode(kind, [kind, '"'] + Escape(line) + "\n\"") == Malformed
  {
    var first := [kind, '"'] + Escape(line);
    var out := first + "\n\"";
    assert out[..|first|] == first && out[|first| + 1..] == "\"";
    LineEndIs(out, |first|);
    assert "\""[..1] == "\"";
    LineEndIs("\"", 1);
  }

  /** No backslash, and the last line finished. */
  predicate Readable(text: string) {
    '\\' !in text && (text == "" || text[|text| - 1] == '\n')
  }

  lemma ReadableParts(text: string)
    requires LineEnd(text) < |text|
    ensures var i := LineEnd(text);
            && text == (text[..i] + "\n") + text[i + 1..]
            && (Readable(text) <==> '\\' !in text[..i] && Readable(text[i + 1..]))
  {
    hide Readable, LineEnd;
    var i := LineEnd(text);
    SplitAt(text, i);
    ReadableJoin(text[..i], text[i + 1..]);
  }

  lemma SplitAt(text: string, i: nat)
    requires i < |text| && text[i] == '\n'
    ensures text == (text[..i] + "\n") + text[i + 1..]
  {}

  lemma ReadableJoin(line: string, rest: string)
    ensures Readable((line + "\n") + rest) <==> '\\' !in line && Readable(rest)
  {
    var text := (line + "\n") + rest;
    assert '\\' in text <==> '\\' in line || '\\' in rest;
    assert text[|text| - 1] == if rest == "" then '\n' else rest[|rest| - 1];
  }

  /** The records of a text read back as that text exactly when it has no backslash and its last line
      is finished. */
  lemma {:induction false} ReadBack(kind: char, text: string)
    requires kind != '\n'
    ensures var d := Decode(kind, Emit(kind, text));
            (d.Text? ==> |d.value| <= |text|) && (d == Text(text) <==> Readable(text))
    decreases |text|
  {
    hide Unescape, Escape, Record, Decode, Readable, LineEnd, Emit, Join;
    var i := LineEnd(text);
    if i < |text| {
      var line, rest := text[..i], text[i + 1..];
      EmitStep(kind, text);
      DecodeRecord(kind, line, Emit(kind, rest));
      UnescapeLine(line, true);
      ReadBack(kind, rest);
      ReadableParts(text);
      JoinIs(Unescape(Escape(line) + "\\n"), Decode(kind, Emit(kind, rest)), line + "\n", rest);
    } else {
      LastLine(kind, text);
    }
  }

  lemma LastLine(kind: char, text: string)
    requires kind != '\n' && LineEnd(text) == |text|
    ensures Decode(kind, Emit(kind, text)) == if text == "" then Text("") else Malformed
    ensures Readable(text) <==> text == ""
  {
    assert text[..|text|] == text;
    if text != "" {
      UnfinishedLine(kind, text);
      assert Emit(kind, text) == "" + ([kind, '"'] + Escape(text) + "\n\"");
    }
  }

  /** Two parts that are no longer than they should be make up the whole only if both are right. */
  lemma JoinIs(a: Text, b: Text, x: string, y: string)
    requires (a.Text? ==> |a.value| <= |x|) && (b.Text? ==> |b.value| <= |y|)
    ensures Join(a, b) == Text(x + y) <==> a == Text(x) && b == Text(y)
    ensures Join(a, b).Text? ==> |Join(a, b).value| <= |x| + |y|
  {
    if Join(a, b) == Text(x + y) {
      assert |a.value| == |x|;
      assert (a.value + b.value)[..|x|] == a.value && (x + y)[..|x|] == x;
      assert (a.value + b.value)[|x|..] == b.value && (x + y)[|x|..] == y;
    }
  }

  // ---------- reading an unfinished text back ----------

  /** Reads as Decode does, and takes a last record whose closing quote stands in a line of its own for
      an unfinished line. */
  function DecodeOpen(kind: char, out: string): Text
    decreases |out|
  {
    var i := LineEnd(out);
    if out == "" then Text("")
    else if i == |out| then Malformed
    else if out[i + 1..] == "\"" then
      if i >= 2 && out[0] == kind && out[1] == '"' then Unescape(out[2..i]) else Malformed
    else
      var body := Body(kind, out[..i]);
      Join(if body.Text? then Unescape(body.value) else Malformed, DecodeOpen(kind, out[i + 1..]))
  }

  lemma OpenRecord(kind: char, line: string)
    requires kind != '\n' && '\n' !in line && line != ""
    ensures DecodeOpen(kind, Unfinished(kind, line)) == Unescape(Escape(line))
  {
    hide Escape, Unescape, Body;
    var first := [kind, '"'] + Escape(line);
    var out := Unfinished(kind, line);
    assert out == first + "\n\"" && out[..|first|] == first && out[|first| + 1..] == "\"";
    LineEndIs(out, |first|);
    assert first[2..] == Escape(line);
  }

  lemma OpenStep(kind: char, line: string, rest: string)
    requires kind != '\n' && '\n' !in line && rest != "\""
    ensures DecodeOpen(kind, Record(kind, line) + rest) == Join(Unescape(Escape(line) + "\\n"), DecodeOpen(kind, rest))
  {
    hide Unescape, Escape, Record, Physical, Body, LineEnd;
    RecordIsPhysical(kind, line, rest);
    BodyOf(kind, line);
  }

  /** What is written starts with a record, if there is anything. */
  lemma EmitIsNoQuote(kind: char, text: string)
    ensures Emit(kind, text) != "\""
  {
    hide Escape;
    if Lines(text) != [] {
      assert Records(kind, Lines(text)) == Record(kind, Lines(text)[0]) + Records(kind, Lines(text)[1..]);
      assert |Record(kind, Lines(text)[0])| >= 2;
    }
  }

  /** Whether or not its last line is finished, a text reads back exactly when it has no backslash. */
  lemma {:induction false} ReadBackOpen(kind: char, text: string)
    requires kind != '\n'
    ensures var d := DecodeOpen(kind, Emit(kind, text));
            (d.Text? ==> |d.value| <= |text|) && (d == Text(text) <==> '\\' !in text)
    decreases |text|
  {
    hide Unescape, Escape, Record, DecodeOpen, LineEnd, Emit, Join, Unfinished;
    var i := LineEnd(text);
    if i < |text| {
      var line, rest := text[..i], text[i + 1..];
      EmitStep(kind, text);
      EmitIsNoQuote(kind, rest);
      OpenStep(kind, line, Emit(kind, rest));
      UnescapeLine(line, true);
      ReadBackOpen(kind, rest);
      SplitAt(text, i);
      JoinIs(Unescape(Escape(line) + "\\n"), DecodeOpen(kind, Emit(kind, rest)), line + "\n", rest);
    } else {
      OnlyLine(kind, text);
    }
  }

  lemma OnlyLine(kind: char, text: string)
    requires kind != '\n' && LineEnd(text) == |text|
    ensures var d := DecodeOpen(kind, Emit(kind, text));
            (d.Text? ==> |d.value| <= |text|) && (d == Text(text) <==> '\\' !in text)
  {
    hide Unescape, Escape, LineEnd, DecodeOpen;
    OneLineEmit(kind, text);
    if text == "" {
      assert DecodeOpen(kind, "") == Text("") by { NothingRead(kind); }
    } else {
      assert text[..|text|] == text;
      OpenRecord(kind, text);
      OpenLine(text);
    }
  }

  lemma NothingRead(kind: char)
    ensures DecodeOpen(kind, "") == Text("")
  {}

  lemma OneLineEmit(kind: char, text: string)
    requires LineEnd(text) == |text|
    ensures Emit(kind, text) == Unfinished(kind, text)
  {
    hide Escape, LineEnd;
    assert Lines(text) == [] && Rest(text) == text;
    assert "" + Unfinished(kind, text) == Unfinished(kind, text);
  }

  lemma OpenLine(line: string)
    requires '\n' !in line
    ensures var u := Unescape(Escape(line)); (u.Text? ==> |u.value| <= |line|) && (u == Text(line) <==> '\\' !in line)
  {
    hide Unescape, Escape;
    UnescapeLine(line, false);
    assert Escape(line) + Closing(false) == Escape(line) && line + Break(false) == line;
  }

  /** A finished text is one physical record per line. */
  lemma {:induction false} OneRecordPerLine(kind: char, text: string)
    requires kind != '\n' && Rest(text) == ""
    ensures |Lines(Emit(kind, text))| == |Lines(text)| && Rest(Emit(kind, text)) == ""
    decreases |text|
  {
    hide LineEnd, Record, Escape;
    var i := LineEnd(text);
    if i < |text| {
      EmitStep(kind, text);
      OneRecordPerLine(kind, text[i + 1..]);
      RecordIsLine(kind, text[..i], Emit(kind, text[i + 1..]));
    }
  }

  lemma RecordIsLine(kind: char, line: string, rest: string)
    requires kind != '\n' && '\n' !in line
    ensures |Lines(Record(kind, line) + rest)| == 1 + |Lines(rest)| && Rest(Record(kind, line) + rest) == Rest(rest)
  {
    hide Record, Physical, LineEnd, Lines, Rest;
    RecordIsPhysical(kind, line, rest);
    FirstLineOf(Record(kind, line) + rest);
  }

  /** Two texts that do not read back: one without its last newline, one with a backslash. */
  lemma NotReadable(kind: char)
    requires kind != '\n'
    ensures Decode(kind, Emit(kind, "a")) != Text("a")
    ensures Decode(kind, Emit(kind, "\\n\n")) != Text("\\n\n")
  {
    ReadBack(kind, "a");
    ReadBack(kind, "\\n\n");
    assert "\\n\n"[0] == '\\';
  }
}
