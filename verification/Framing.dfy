/** The MI input pipeline: bytes arrive in chunks, commands are the lines they make up. */
module Framing {
  import opened CStrings
  import opened StrSearch
  import opened StringBs

  // ---------- what the stream says ----------

  function LineEnd(s: string): (i: nat)
    ensures i <= |s| && (forall j :: 0 <= j < i ==> s[j] != '\n') && (i < |s| ==> s[i] == '\n')
  {
    if s == "" || s[0] == '\n' then 0 else 1 + LineEnd(s[1..])
  }

  /** A line without the carriage returns at its end. */
  function StripCr(line: string): (r: string)
    ensures r <= line && (r != "" ==> r[|r| - 1] != '\r')
    ensures forall i :: |r| <= i < |line| ==> line[i] == '\r'
  {
    if line != "" && line[|line| - 1] == '\r' then StripCr(line[..|line| - 1]) else line
  }

  /** The complete lines of a stream, and what follows the last newline. */
  function Lines(s: string): seq<string>
    decreases |s|
  {
    var i := LineEnd(s);
    if i == |s| then [] else [s[..i]] + Lines(s[i + 1..])
  }

  function Rest(s: string): (r: string)
    ensures |r| <= |s|
    decreases |s|
  {
    var i := LineEnd(s);
    if i == |s| then s else Rest(s[i + 1..])
  }

  /** The commands of a stream: its lines, trimmed. */
  function Commands(s: string): seq<string>
    decreases |s|
  {
    var i := LineEnd(s);
    if i == |s| then [] else [StripCr(s[..i])] + Commands(s[i + 1..])
  }

  lemma {:induction false} CommandsAreLines(s: string)
    ensures |Commands(s)| == |Lines(s)|
    ensures forall k :: 0 <= k < |Lines(s)| ==> Commands(s)[k] == StripCr(Lines(s)[k])
    decreases |s|
  {
    hide LineEnd, StripCr, Commands, Lines;
    FirstLineOf(s);
    FirstCommand(s);
    var i := LineEnd(s);
    if i < |s| {
      CommandsAreLines(s[i + 1..]);
    }
  }

  function Unlines(lines: seq<string>): string {
    if lines == [] then "" else lines[0] + "\n" + Unlines(lines[1..])
  }

  lemma LineEndIs(s: string, i: nat)
    requires i <= |s| && '\n' !in s[..i] && (i < |s| ==> s[i] == '\n')
    ensures LineEnd(s) == i
  {
    assert forall j :: 0 <= j < i ==> s[j] == s[..i][j];
    LineEndAt(s, i);
  }

  lemma {:induction false} LineEndAt(s: string, i: nat)
    requires i <= |s| && (forall j :: 0 <= j < i ==> s[j] != '\n') && (i < |s| ==> s[i] == '\n')
    ensures LineEnd(s) == i
  {
    if i > 0 {
      LineEndAt(s[1..], i - 1);
    }
  }

  lemma {:induction false} LinesJoin(s: string)
    ensures s == Unlines(Lines(s)) + Rest(s) && '\n' !in Rest(s) && forall l :: l in Lines(s) ==> '\n' !in l
    decreases |s|
  {
    hide LineEnd;
    var i := LineEnd(s);
    if i < |s| {
      var t := s[i + 1..];
      LinesJoin(t);
      assert s == s[..i] + "\n" + t;
      assert Lines(s)[1..] == Lines(t);
      assert s[..i] + "\n" + (Unlines(Lines(t)) + Rest(t)) == s[..i] + "\n" + Unlines(Lines(t)) + Rest(t);
    } else {
      assert s[..i] == s;
    }
  }

  /** Lines and rest are the one way to take a stream apart at its newlines. */
  lemma {:induction false} LinesUnique(lines: seq<string>, rest: string)
    requires '\n' !in rest && forall l :: l in lines ==> '\n' !in l
    ensures Lines(Unlines(lines) + rest) == lines && Rest(Unlines(lines) + rest) == rest
    decreases |lines|
  {
    hide LineEnd, Lines, Rest;
    var s := Unlines(lines) + rest;
    FirstLineOf(s);
    if lines == [] {
      assert s == rest && s[..|s|] == s;
      LineEndIs(s, |s|);
    } else {
      FrontLine(lines[0], Unlines(lines[1..]), rest);
      assert forall x :: x in lines[1..] ==> x in lines;
      LinesUnique(lines[1..], rest);
    }
  }

  lemma FirstLineOf(s: string)
    ensures var i := LineEnd(s);
            if i == |s| then Lines(s) == [] && Rest(s) == s
            else Lines(s) == [s[..i]] + Lines(s[i + 1..]) && Rest(s) == Rest(s[i + 1..])
  {
    hide LineEnd;
    assert LineEnd(s) == |s| ==> Lines(s) == [] && Rest(s) == s;
    assert LineEnd(s) != |s| ==> Rest(s) == Rest(s[LineEnd(s) + 1..]);
  }

  lemma FrontLine(l: string, more: string, rest: string)
    requires '\n' !in l
    ensures var s := l + "\n" + more + rest;
            LineEnd(s) == |l| < |s| && s[..|l|] == l && s[|l| + 1..] == more + rest
  {
    var s := l + "\n" + more + rest;
    assert s[..|l|] == l;
    LineEndIs(s, |l|);
  }

  /** Cutting the stream anywhere changes nothing: the rest of the first part, followed by the second
      part, yields the remaining commands. */
  lemma {:induction false} CommandsCut(a: string, b: string)
    ensures Commands(a + b) == Commands(a) + Commands(Rest(a) + b) && Rest(a + b) == Rest(Rest(a) + b)
    decreases |a|
  {
    hide LineEnd, StripCr, Commands, Rest;
    var i := LineEnd(a);
    FirstCommand(a);
    if i < |a| {
      var t := a[i + 1..];
      assert (a + b)[..i] == a[..i] && (a + b)[i + 1..] == t + b;
      LineEndIs(a + b, i);
      FirstCommand(a + b);
      CommandsCut(t, b);
    }
  }

  lemma FirstCommand(s: string)
    ensures var i := LineEnd(s);
            if i == |s| then Commands(s) == [] && Rest(s) == s
            else Commands(s) == [StripCr(s[..i])] + Commands(s[i + 1..]) && Rest(s) == Rest(s[i + 1..])
  {
    hide LineEnd, StripCr;
    assert LineEnd(s) == |s| ==> Commands(s) == [] && Rest(s) == s;
    assert LineEnd(s) != |s| ==> Rest(s) == Rest(s[LineEnd(s) + 1..]);
  }

  lemma {:induction false} RestHasNoLines(s: string)
    ensures Rest(Rest(s)) == Rest(s) && NoLine(Rest(s))
    decreases |s|
  {
    var i := LineEnd(s);
    if i < |s| {
      RestHasNoLines(s[i + 1..]);
    }
  }

  // ---------- the framer ----------

  const BIG_LINE_MAX: nat := 16384

  class Engine {
    const cdtbuffer: StringB
    /** The commands handed to the interpreter so far. */
    var dispatched: seq<string>

    ghost predicate Valid()
      reads this, cdtbuffer, cdtbuffer.chars
    {
      cdtbuffer.Valid()
    }

    function Pending(): string
      requires Valid()
      reads this, cdtbuffer, cdtbuffer.chars
    {
      cdtbuffer.Contents()
    }

    constructor ()
      ensures Valid() && Pending() == "" && dispatched == [] && fresh(cdtbuffer) && fresh(cdtbuffer.chars)
    {
      cdtbuffer := new StringB.WithCapacity(BIG_LINE_MAX);
      dispatched := [];
    }

    /** Takes in a chunk and dispatches the first complete line, if there is one. */
    method FromCDT(chunk: string) returns (moreData: bool)
      requires Valid() && NUL !in chunk && |Pending()| + |chunk| < BIG_LIMIT
      modifies this, cdtbuffer, cdtbuffer.chars
      ensures Valid() && (cdtbuffer.chars == old(cdtbuffer.chars) || fresh(cdtbuffer.chars))
      ensures var s := old(Pending()) + chunk; var i := LineEnd(s);
              if i == |s| then Pending() == s && dispatched == old(dispatched) && !moreData
              else Pending() == s[i + 1..] && dispatched == old(dispatched) + [StripCr(s[..i])]
                   && (moreData <==> Pending() != "")
    {
      hide LineEnd, StripCr;
      cdtbuffer.Append(chunk);
      var s := cdtbuffer.Contents();
      var i := StrStr(s, "\n");
      NewlineIsLineEnd(s, i);
      if i < 0 {
        return false;
      }
      var command := FirstLine(s, i);
      moreData := Shift(i + 1);
      dispatched := dispatched + [command];
    }

    /** Drops the first `n` buffered characters; whether any are left. */
    method Shift(n: nat) returns (left: bool)
      requires Valid() && 1 <= n <= |Pending()|
      modifies cdtbuffer, cdtbuffer.chars
      ensures Valid() && cdtbuffer.chars == old(cdtbuffer.chars)
      ensures Pending() == old(Pending())[n..] && (left <==> Pending() != "")
    {
      ghost var s := Pending();
      cdtbuffer.Clear(n, 0);
      assert s[..0] + s[n..] == s[n..];
      left := cdtbuffer.size != 0;
    }
  }

  /** The line that ends at `end`, copied into a buffer of its own and trimmed there. */
  method FirstLine(s: string, end: nat) returns (command: string)
    requires NUL !in s && end < |s| < BIG_LIMIT && s[end] == '\n' && '\n' !in s[..end]
    ensures command == StripCr(s[..end])
  {
    hide StripCr;
    var buffer := new StringB.WithCapacity(BIG_LINE_MAX);
    buffer.Copy(s, end + 1);
    assert s[..end + 1][..end] == s[..end];
    TrimEnd(buffer, end);
    command := buffer.Contents();
  }

  /** Removes the newline at `end` and the carriage returns before it. */
  method TrimEnd(command: StringB, end: nat)
    requires command.Valid() && |command.Contents()| == end + 1 && command.Contents()[end] == '\n'
    requires '\n' !in command.Contents()[..end]
    modifies command, command.chars
    ensures command.Valid() && command.chars == old(command.chars)
    ensures command.Contents() == StripCr(old(command.Contents())[..end])
  {
    var line := command.Contents();
    var e := end;
    assert line[..end][..end] == line[..end];
    while e > 0 && (line[e - 1] == '\n' || line[e - 1] == '\r')
      invariant 0 <= e <= end && StripCr(line[..end]) == StripCr(line[..e])
    {
      assert line[..end][e - 1] == line[e - 1];
      assert line[..e][..e - 1] == line[..e - 1];
      e := e - 1;
    }
    command.Clear(BIG_LIMIT, e);
  }

  lemma NewlineIsLineEnd(s: string, i: int)
    requires FirstAt(s, "\n", i)
    ensures LineEnd(s) == if i < 0 then |s| else i
  {
    var n := if i < 0 then |s| else i;
    forall j | 0 <= j < n
      ensures s[j] != '\n'
    {
      assert s[j..j + 1] == [s[j]];
      assert !OccursAt(s, "\n", j);
    }
    assert i >= 0 ==> s[i..i + 1][0] == s[i];
    LineEndAt(s, n);
  }

  // ---------- the driver ----------

  /** No complete line is waiting: the state the driver leaves the buffer in. */
  ghost predicate NoLine(pending: string) {
    Commands(pending) == []
  }

  /** Every chunk fits in the buffer next to what is pending when it arrives. */
  ghost predicate Fits(pending: string, chunks: seq<string>)
    decreases |chunks|
  {
    chunks == [] ||
    (NUL !in chunks[0] && |pending| + |chunks[0]| < BIG_LIMIT && Fits(Rest(pending + chunks[0]), chunks[1..]))
  }

  function Flatten(chunks: seq<string>): string {
    if chunks == [] then "" else chunks[0] + Flatten(chunks[1..])
  }

  /** The driver loop for one chunk: every complete line is dispatched, the rest is kept. */
  method Drive(engine: Engine, chunk: string)
    requires engine.Valid() && NUL !in chunk && |engine.Pending()| + |chunk| < BIG_LIMIT
    modifies engine, engine.cdtbuffer, engine.cdtbuffer.chars
    ensures engine.Valid() && (engine.cdtbuffer.chars == old(engine.cdtbuffer.chars) || fresh(engine.cdtbuffer.chars))
    ensures engine.dispatched == old(engine.dispatched) + Commands(old(engine.Pending()) + chunk)
    ensures engine.Pending() == Rest(old(engine.Pending()) + chunk) && NoLine(engine.Pending())
  {
    ghost var s, before := engine.Pending() + chunk, engine.dispatched;
    var more := OneCall(engine, chunk);
    while more
      invariant engine.Valid() && |engine.Pending()| < BIG_LIMIT
      invariant engine.cdtbuffer.chars == old(engine.cdtbuffer.chars) || fresh(engine.cdtbuffer.chars)
      invariant before + Commands(s) == engine.dispatched + Commands(engine.Pending())
      invariant Rest(s) == Rest(engine.Pending())
      invariant !more ==> NoLine(engine.Pending()) && Rest(engine.Pending()) == engine.Pending()
      decreases more, |engine.Pending()|
    {
      hide Commands, Rest;
      assert engine.Pending() + "" == engine.Pending();
      more := OneCall(engine, "");
    }
  }

  /** One call moves one command from the front of the stream to the dispatched ones. */
  method OneCall(engine: Engine, chunk: string) returns (more: bool)
    requires engine.Valid() && NUL !in chunk && |engine.Pending()| + |chunk| < BIG_LIMIT
    modifies engine, engine.cdtbuffer, engine.cdtbuffer.chars
    ensures engine.Valid() && (engine.cdtbuffer.chars == old(engine.cdtbuffer.chars) || fresh(engine.cdtbuffer.chars))
    ensures var s := old(engine.Pending()) + chunk;
            && old(engine.dispatched) + Commands(s) == engine.dispatched + Commands(engine.Pending())
            && Rest(s) == Rest(engine.Pending()) && |engine.Pending()| <= |s|
            && (if more then |engine.Pending()| < |s|
                else NoLine(engine.Pending()) && Rest(engine.Pending()) == engine.Pending())
  {
    hide LineEnd, StripCr, Commands, Rest;
    ghost var s := engine.Pending() + chunk;
    FirstCommand(s);
    more := engine.FromCDT(chunk);
    FirstCommand(engine.Pending());
  }

  /** Chunk by chunk, the driver dispatches exactly the commands of the whole stream. */
  method Receive(engine: Engine, chunks: seq<string>)
    requires engine.Valid() && NoLine(engine.Pending()) && Fits(engine.Pending(), chunks)
    modifies engine, engine.cdtbuffer, engine.cdtbuffer.chars
    ensures engine.Valid() && NoLine(engine.Pending())
    ensures engine.dispatched == old(engine.dispatched) + Commands(old(engine.Pending()) + Flatten(chunks))
    ensures engine.Pending() == Rest(old(engine.Pending()) + Flatten(chunks))
  {
    hide LineEnd, StripCr, Commands, Rest;
    var i := 0;
    ghost var s, before := engine.Pending() + Flatten(chunks), engine.dispatched;
    assert chunks[0..] == chunks;
    while i < |chunks|
      invariant i <= |chunks| && engine.Valid() && Fits(engine.Pending(), chunks[i..])
      invariant engine.cdtbuffer.chars == old(engine.cdtbuffer.chars) || fresh(engine.cdtbuffer.chars)
      invariant before + Commands(s) == engine.dispatched + Commands(engine.Pending() + Flatten(chunks[i..]))
      invariant Rest(s) == Rest(engine.Pending() + Flatten(chunks[i..]))
      invariant NoLine(engine.Pending())
    {
      ghost var p, c, tail := engine.Pending(), chunks[i], Flatten(chunks[i + 1..]);
      assert chunks[i..][1..] == chunks[i + 1..];
      assert p + (c + tail) == (p + c) + tail;
      CommandsCut(p + c, tail);
      Drive(engine, chunks[i]);
      i := i + 1;
    }
    assert chunks[i..] == [] && engine.Pending() + "" == engine.Pending();
    FirstCommand(engine.Pending());
  }

  /** Two ways of cutting the same stream leave the same commands and the same rest. */
  lemma {:induction false} ChunksIrrelevant(pending: string, chunks: seq<string>)
    requires NoLine(pending)
    ensures ReceiveAll(pending, chunks) == (Commands(pending + Flatten(chunks)), Rest(pending + Flatten(chunks)))
    decreases |chunks|
  {
    hide LineEnd, StripCr, Commands, Rest;
    if chunks == [] {
      assert pending + "" == pending;
      FirstCommand(pending);
    } else {
      var s, tail := pending + chunks[0], Flatten(chunks[1..]);
      assert pending + (chunks[0] + tail) == s + tail;
      CommandsCut(s, tail);
      RestHasNoLines(s);
      ChunksIrrelevant(Rest(s), chunks[1..]);
    }
  }

  /** What the driver does with the chunks one after the other: commands dispatched, rest kept. */
  function ReceiveAll(pending: string, chunks: seq<string>): (seq<string>, string)
    decreases |chunks|
  {
    if chunks == [] then ([], pending)
    else
      var s := pending + chunks[0];
      var (cs, rest) := ReceiveAll(Rest(s), chunks[1..]);
      (Commands(s) + cs, rest)
  }
}
