/** The bounded history: an array of lines that drops its oldest entry when full and can be resized. */
module Histories {
  import opened Wrap

  /** The last `n` elements, or all if there are fewer. */
  function Latest<T>(s: seq<T>, n: nat): (r: seq<T>)
    ensures |r| == if |s| <= n then |s| else n
  {
    if |s| <= n then s else s[|s| - n..]
  }

  lemma LatestIsEnd<T>(s: seq<T>, n: nat)
    ensures s == s[..|s| - |Latest(s, n)|] + Latest(s, n)
  {}

  // ---------- what the operations do to the lines ----------

  predicate Repeats(lines: seq<string>, line: string) {
    lines != [] && lines[|lines| - 1] == line
  }

  function AddLine(lines: seq<string>, line: string, max: nat): (r: seq<string>)
    ensures forall l :: l in r ==> l in lines || l == line
    ensures max > 0 ==> r != []
  {
    if max == 0 || Repeats(lines, line) then lines else Latest(lines, max - 1) + [line]
  }

  datatype Op = Add(line: string) | SetMaxLen(max: Positive)

  datatype State = State(lines: seq<string>, max: nat)

  function Apply(s: State, op: Op): State {
    match op
    case Add(line) => s.(lines := AddLine(s.lines, line, s.max))
    case SetMaxLen(max) => State(Latest(s.lines, max), max)
  }

  function ApplyAll(s: State, ops: seq<Op>): State {
    if ops == [] then s else Apply(ApplyAll(s, ops[..|ops| - 1]), ops[|ops| - 1])
  }

  // ---------- the lines ever added ----------

  /** All lines added, without immediate repetitions. */
  function Added(ops: seq<Op>): seq<string> {
    if ops == [] then []
    else
      var before := Added(ops[..|ops| - 1]);
      match ops[|ops| - 1]
      case Add(line) => if Repeats(before, line) then before else before + [line]
      case SetMaxLen(_) => before
  }

  /** The smallest maximum in force during the run. */
  function LeastMax(max: nat, ops: seq<Op>): nat {
    if ops == [] then max
    else
      var before := LeastMax(max, ops[..|ops| - 1]);
      match ops[|ops| - 1]
      case Add(_) => before
      case SetMaxLen(m) => if m < before then m else before
  }

  lemma LatestOfLatest<T>(s: seq<T>, m: nat, n: nat)
    ensures Latest(Latest(s, m), n) == Latest(s, if m < n then m else n)
  {}

  lemma LatestSnoc<T>(s: seq<T>, k: nat, x: T)
    ensures Latest(s, k) + [x] == Latest(s + [x], |Latest(s, k)| + 1)
  {
    var n := |Latest(s, k)|;
    assert Latest(s, k) == s[|s| - n..];
    assert s[|s| - n..] + [x] == (s + [x])[|s| - n..];
  }

  lemma AddToLatest(all: seq<string>, lines: seq<string>, line: string, max: Positive, least: Positive)
    requires lines == Latest(all, |lines|) && |lines| <= max && least <= max && |Latest(all, least)| <= |lines|
    ensures var all' := if Repeats(all, line) then all else all + [line];
            var r := AddLine(lines, line, max);
            r == Latest(all', |r|) && |r| <= max && |Latest(all', least)| <= |r|
  {
    LatestLast(all, lines, line);
    if !Repeats(all, line) {
      AppendToLatest(all, lines, line, max - 1, least);
    }
  }

  lemma LatestLast(all: seq<string>, lines: seq<string>, line: string)
    requires lines == Latest(all, |lines|) && (all != [] ==> lines != [])
    ensures Repeats(lines, line) == Repeats(all, line)
  {}

  /** The kept lines and one more. */
  lemma AppendToLatest(all: seq<string>, lines: seq<string>, line: string, room: nat, least: Positive)
    requires lines == Latest(all, |lines|) && |lines| <= room + 1 && least <= room + 1
    requires |Latest(all, least)| <= |lines|
    ensures var r := Latest(lines, room) + [line];
            r == Latest(all + [line], |r|) && |r| <= room + 1 && |Latest(all + [line], least)| <= |r|
  {
    hide Latest;
    LatestOfLatest(all, |lines|, room);
    LatestSnoc(all, if |lines| < room then |lines| else room, line);
  }

  /** After any run the history is the end of the list of lines added: at most the current maximum,
      and at least the last lines the smallest maximum had room for. */
  lemma {:induction false} HistoryIsLatest(max: Positive, ops: seq<Op>)
    ensures var s := ApplyAll(State([], max), ops);
            && s.lines == Latest(Added(ops), |s.lines|) && |s.lines| <= s.max
            && |Latest(Added(ops), LeastMax(max, ops))| <= |s.lines|
            && 1 <= LeastMax(max, ops) <= s.max
  {
    if ops != [] {
      var before := ops[..|ops| - 1];
      HistoryIsLatest(max, before);
      var s := ApplyAll(State([], max), before);
      match ops[|ops| - 1] {
        case Add(line) => AddToLatest(Added(before), s.lines, line, s.max, LeastMax(max, before));
        case SetMaxLen(m) => LatestOfLatest(Added(before), |s.lines|, m);
      }
    }
  }

  /** What is lost is always at the old end. */
  lemma OldestGoFirst(max: Positive, ops: seq<Op>)
    ensures exists lost :: Added(ops) == lost + ApplyAll(State([], max), ops).lines
  {
    hide ApplyAll, Added, LeastMax, Latest;
    HistoryIsLatest(max, ops);
    LatestIsEnd(Added(ops), |ApplyAll(State([], max), ops).lines|);
  }

  /** With a fixed maximum `m` the history is exactly the last `m` lines. */
  lemma FixedMaximum(max: Positive, ops: seq<Op>)
    requires forall i :: 0 <= i < |ops| ==> ops[i].Add?
    ensures ApplyAll(State([], max), ops) == State(Latest(Added(ops), max), max)
  {
    hide ApplyAll, Added, LeastMax;
    HistoryIsLatest(max, ops);
    MaxFixed(max, ops);
    LatestLength(Added(ops), |ApplyAll(State([], max), ops).lines|, max);
  }

  lemma LatestLength<T>(s: seq<T>, n: nat, m: nat)
    requires |Latest(s, n)| == n <= m && |Latest(s, m)| <= n
    ensures Latest(s, n) == Latest(s, m)
  {}

  lemma {:induction false} MaxFixed(max: Positive, ops: seq<Op>)
    requires forall i :: 0 <= i < |ops| ==> ops[i].Add?
    ensures LeastMax(max, ops) == max && ApplyAll(State([], max), ops).max == max
  {
    if ops != [] {
      MaxFixed(max, ops[..|ops| - 1]);
    }
  }

  /** The added lines have no immediate repetitions, so neither has the history. */
  lemma {:induction false} NoRepetitions(ops: seq<Op>)
    ensures forall i :: 0 < i < |Added(ops)| ==> Added(ops)[i - 1] != Added(ops)[i]
  {
    if ops != [] {
      NoRepetitions(ops[..|ops| - 1]);
    }
  }

  // ---------- the array ----------

  class History {
    var slots: array?<string>
    var len: nat
    var maxLen: nat

    ghost predicate Valid()
      reads this
    {
      if slots == null then len == 0 else slots.Length == maxLen && len <= maxLen
    }

    function Lines(): seq<string>
      requires Valid()
      reads this, slots
    {
      if slots == null then [] else slots[..len]
    }

    constructor (max: nat)
      ensures Valid() && Lines() == [] && maxLen == max && slots == null
    {
      slots, len, maxLen := null, 0, max;
    }

    /** Adds a line, unless it repeats the newest one; a full history loses its oldest line. */
    method Add(line: string) returns (added: bool)
      requires Valid()
      modifies this, slots
      ensures Valid() && maxLen == old(maxLen) && (slots == old(slots) || fresh(slots))
      ensures Lines() == AddLine(old(Lines()), line, maxLen)
      ensures added <==> maxLen > 0 && !Repeats(old(Lines()), line)
    {
      if maxLen == 0 {
        return false;
      }
      if slots == null {
        slots := new string[maxLen](_ => "");
      }
      if len > 0 && slots[len - 1] == line {
        return false;
      }
      if len == maxLen {
        DropOldest();
      }
      Push(line);
      return true;
    }

    /** Makes room by shifting every entry down. */
    method DropOldest()
      requires Valid() && slots != null && len == maxLen > 0
      modifies this`len, slots
      ensures Valid() && len == maxLen - 1 && Lines() == old(Lines())[1..]
    {
      ghost var lines := Lines();
      ShiftDown(slots);
      len := len - 1;
      assert slots[..len] == lines[1..];
    }

    method Push(line: string)
      requires Valid() && slots != null && len < maxLen
      modifies this`len, slots
      ensures Valid() && Lines() == old(Lines()) + [line]
    {
      slots[len] := line;
      len := len + 1;
    }

    /** A new array with the newest entries at its start. */
    method CopyNewest(max: nat) returns (copy: array<string>)
      requires Valid() && slots != null && max >= 1
      ensures fresh(copy) && copy.Length == max
      ensures copy[..if len < max then len else max] == Latest(Lines(), max)
    {
      var tocopy := len;
      if max < tocopy {
        tocopy := max;
      }
      copy := new string[max](_ => "");
      var from := len - tocopy;
      for j := 0 to tocopy
        invariant forall i :: 0 <= i < j ==> copy[i] == slots[from + i]
      {
        copy[j] := slots[from + j];
      }
      assert copy[..tocopy] == Lines()[from..];
    }

    /** Changes the maximum, keeping the newest lines. */
    method SetMaxLen(max: int) returns (ok: bool)
      requires Valid()
      modifies this, slots
      ensures Valid() && (ok <==> max >= 1) && (slots == old(slots) || fresh(slots))
      ensures if max >= 1 then State(Lines(), maxLen) == Apply(old(State(Lines(), maxLen)), Op.SetMaxLen(max))
              else Lines() == old(Lines()) && maxLen == old(maxLen)
    {
      if max < 1 {
        return false;
      }
      if slots != null {
        slots := CopyNewest(max);
      }
      maxLen := max;
      if len > maxLen {
        len := maxLen;
      }
      return true;
    }
  }

  /** Moves every element one slot down; the first is lost. */
  method ShiftDown(a: array<string>)
    requires a.Length > 0
    modifies a
    ensures a[..a.Length - 1] == old(a[1..])
  {
    for j := 0 to a.Length - 1
      invariant forall i :: 0 <= i < j ==> a[i] == old(a[i + 1])
      invariant forall i :: j <= i < a.Length ==> a[i] == old(a[i])
    {
      a[j] := a[j + 1];
    }
  }
}
