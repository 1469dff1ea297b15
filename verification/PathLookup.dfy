/** Finding a variable by its path: the longest resolvable root, then its children one by one. */
module PathLookup {
  import opened CStrings
  import opened Strl

  datatype Option<T> = None | Some(value: T)

  /** A debugger value: its name, whether it is valid and free of errors, and its children. */
  datatype Value = Value(name: Option<string>, ok: bool, children: seq<Value>)

  /** What the debugger resolves by itself (names, paths, expressions), and how many children of a
      value are looked at. */
  datatype World = World(resolve: string -> Option<Value>, childrenMax: int)

  function GetName(v: Value): string {
    if v.name.Some? then v.name.value else "(anonymous)"
  }

  // ---------- strfind ----------

  /** The pattern stands at `i`. */
  predicate Hit(s: string, find: string, i: int) {
    0 <= i <= |s| - |find| && s[i..i + |find|] == find
  }

  /** The scan gives up at `i`: as many characters of `except` as the pattern has stand there. */
  predicate Stop(s: string, find: string, except: string, i: int) {
    && 0 <= i <= |s| - |find| && i < |s| - |except|
    && except != "" && |find| <= |except| && s[i..i + |find|] == except[..|find|]
  }

  /** The scan from `i` in direction `way` (1 or -1); -1 if it finds nothing or gives up. No `except`
      is the empty string. */
  function Scan(s: string, find: string, way: int, except: string, i: int): (r: int)
    requires way == 1 || way == -1
    ensures r == -1 || Hit(s, find, r)
    decreases if way == 1 then |s| - i else i
  {
    if i < 0 || i > |s| - |find| || Stop(s, find, except, i) then -1
    else if Hit(s, find, i) then i
    else Scan(s, find, way, except, i + way)
  }

  function Find(s: string, find: string, way: int, except: string): (r: int)
    requires way == 1 || way == -1
    ensures r == -1 || Hit(s, find, r)
  {
    Scan(s, find, way, except, if way == 1 then 0 else |s| - |find|)
  }

  /** One turn of the scan. */
  lemma ScanStep(s: string, find: string, way: int, except: string, i: int)
    requires way == 1 || way == -1
    ensures Scan(s, find, way, except, i) ==
              if i < 0 || i > |s| - |find| then -1
              else if except != "" && i < |s| - |except| && |find| <= |except|
                      && s[i..i + |find|] == except[..|find|] then -1
              else if s[i..i + |find|] == find then i
              else Scan(s, find, way, except, i + way)
  {}

  method StrFind(s: string, find: string, way: int, except: string) returns (r: int)
    requires way == 1 || way == -1
    ensures r == Find(s, find, way, except)
  {
    hide Scan, Hit, Stop;
    if |find| > |s| {
      ScanStep(s, find, way, except, if way == 1 then 0 else |s| - |find|);
      return -1;
    }
    var cp := if way > 0 then 0 else |s| - |find|;
    while 0 <= cp <= |s| - |find|
      invariant -1 <= cp <= |s| - |find| + 1
      invariant Find(s, find, way, except) == Scan(s, find, way, except, cp)
      decreases if way == 1 then |s| - cp else cp
    {
      ScanStep(s, find, way, except, cp);
      if except != "" && cp < |s| - |except| {
        if |find| <= |except| && s[cp..cp + |find|] == except[..|find|] {
          return -1;
        }
      }
      if s[cp..cp + |find|] == find {
        return cp;
      }
      cp := cp + way;
    }
    ScanStep(s, find, way, except, cp);
    return -1;
  }

  /** Whether the scan comes to `j` before `i`. */
  predicate Before(way: int, j: int, i: int) {
    if way == 1 then j < i else j > i
  }

  ghost predicate QuietBefore(s: string, find: string, way: int, except: string, i: int) {
    forall j :: Before(way, j, i) ==> !Hit(s, find, j) && !Stop(s, find, except, j)
  }

  /** The scan finds the first hit it comes to, unless it comes to a stop before, or there is none. */
  lemma {:induction false} ScanFinds(s: string, find: string, way: int, except: string, from: int, i: int)
    requires way == 1 || way == -1
    requires QuietBefore(s, find, way, except, i) && 0 <= i <= |s| - |find| && 0 <= from <= |s| - |find|
    requires from == i || Before(way, from, i)
    requires Hit(s, find, i) || Stop(s, find, except, i)
    ensures Scan(s, find, way, except, from) == if Stop(s, find, except, i) then -1 else i
    decreases if way == 1 then i - from else from - i
  {
    if from != i {
      ScanFinds(s, find, way, except, from + way, i);
    }
  }

  /** A scan that comes to a stop before any hit finds nothing. */
  lemma {:induction false} ScanStops(s: string, find: string, way: int, except: string, from: int, i: int)
    requires way == 1 || way == -1
    requires Stop(s, find, except, i) && 0 <= from <= |s| - |find| && (from == i || Before(way, from, i))
    requires forall j :: Before(way, j, i) ==> !Hit(s, find, j)
    ensures Scan(s, find, way, except, from) == -1
    decreases if way == 1 then i - from else from - i
  {
    if from != i {
      ScanStops(s, find, way, except, from + way, i);
    }
  }

  lemma FindIs(s: string, find: string, way: int, except: string, i: int)
    requires way == 1 || way == -1
    requires QuietBefore(s, find, way, except, i) && 0 <= i <= |s| - |find|
    requires Hit(s, find, i) || Stop(s, find, except, i)
    ensures Find(s, find, way, except) == if Stop(s, find, except, i) then -1 else i
  {
    ScanFinds(s, find, way, except, if way == 1 then 0 else |s| - |find|, i);
  }

  lemma FindNothing(s: string, find: string, way: int, except: string)
    requires (way == 1 || way == -1) && forall i :: !Hit(s, find, i)
    ensures Find(s, find, way, except) == -1
  {}

  // ---------- the lookup, on strings ----------

  /** Where a path is cut before its last part, and where that part starts. */
  datatype Cut = NoCut | Cut(end: nat, next: nat)

  function CutLast(s: string): (c: Cut)
    ensures c.Cut? ==> c.end < |s| && c.end <= c.next <= |s|
  {
    var dot := Find(s, ".", -1, "->");
    if dot >= 0 then Cut(dot, dot + 1)
    else
      var arrow := Find(s, "->", -1, "");
      if arrow >= 0 then Cut(arrow, arrow + 2)
      else
        var index := Find(s, "[", -1, "");
        if index >= 0 then Cut(index, index) else NoCut
  }

  function CutFirst(s: string): (c: Cut)
    ensures c.Cut? ==> c.end < |s| && c.end < c.next <= |s|
  {
    var dot := Find(s, ".", 1, "->");
    if dot >= 0 then Cut(dot, dot + 1)
    else
      var arrow := Find(s, "->", 1, "");
      if arrow >= 0 then Cut(arrow, arrow + 2) else NoCut
  }

  /** The longest prefix the debugger resolves, and where the children start. */
  function Root(w: World, s: string): (r: Option<(Value, nat)>)
    ensures r.Some? ==> r.value.1 <= |s|
    decreases |s|
  {
    var c := CutLast(s);
    if c.NoCut? then None
    else
      var v := w.resolve(s[..c.end]);
      if v.Some? then Some((v.value, c.next)) else Root(w, s[..c.end])
  }

  /** The first valid child of that name, among the first `max`. */
  function FirstChild(children: seq<Value>, name: string, max: int): Option<Value> {
    if children == [] || max <= 0 then None
    else if children[0].ok && GetName(children[0]) == name then Some(children[0])
    else FirstChild(children[1..], name, max - 1)
  }

  /** A valid value of exactly that name; one without a name goes by "(anonymous)". */
  predicate IsNamed(v: Value, name: string) {
    v.ok && (v.name == Some(name) || (v.name.None? && name == "(anonymous)"))
  }

  /** The least index below `max` of a child so named, if there is one. */
  lemma {:induction false} FirstChildIs(children: seq<Value>, name: string, max: int)
    ensures match FirstChild(children, name, max)
            case None => forall i :: 0 <= i < |children| && i < max ==> !IsNamed(children[i], name)
            case Some(v) =>
              exists i :: 0 <= i < |children| && i < max && v == children[i] && IsNamed(children[i], name)
                && forall j :: 0 <= j < i ==> !IsNamed(children[j], name)
    decreases |children|
  {
    if children != [] && max > 0 {
      if IsNamed(children[0], name) {
        assert FirstChild(children, name, max) == Some(children[0]);
      } else {
        FirstChildIs(children[1..], name, max - 1);
        assert forall i :: 1 <= i < |children| ==> children[i] == children[1..][i - 1];
        var r := FirstChild(children[1..], name, max - 1);
        if r.Some? {
          var i :| 0 <= i < |children| - 1 && i < max - 1 && r.value == children[1..][i]
            && IsNamed(children[1..][i], name) && forall j :: 0 <= j < i ==> !IsNamed(children[1..][j], name);
          assert children[i + 1] == r.value;
          assert forall j :: 1 <= j < i + 1 ==> children[j] == children[1..][j - 1];
        }
      }
    }
  }

  const NAME_LIMIT: nat := NAME_MAX - 1

  function Direct(w: World, expression: string, parent: Option<Value>, depth: int): Option<Value>
    decreases parent.None?, |expression|
  {
    var e := Take(expression, NAME_LIMIT);
    if parent.None? then
      var root := Root(w, e);
      if root.None? then None else Direct(w, e[root.value.1..], Some(root.value.0), depth - 1)
    else
      var c := CutFirst(e);
      var child := if depth > 1 then FirstChild(parent.value.children, if c.Cut? then e[..c.end] else e, w.childrenMax)
                   else None;
      if child.None? || c.NoCut? then child else Direct(w, e[c.next..], child, depth - 1)
  }

  // ---------- the lookup, on the character buffer ----------

  /** The buffer holds `e`, perhaps with NULs poked in behind `n`. */
  ghost predicate Holds(parts: array<char>, e: string, n: nat)
    reads parts
  {
    n <= |e| < parts.Length && NUL !in e && parts[..n] == e[..n] && parts[n] == NUL
  }

  lemma HoldsString(parts: array<char>, e: string, n: nat)
    requires Holds(parts, e, n)
    ensures CStr(parts[..]) == e[..n]
  {
    assert parts[..][..n] == parts[..n];
    CStrIs(parts[..], n);
  }

  method Fill(parts: array<char>, expression: string)
    requires NUL !in expression && parts.Length == NAME_MAX
    modifies parts
    ensures var e := Take(expression, NAME_LIMIT); Holds(parts, e, |e|)
  {
    CStrIs(expression + [NUL], |expression|);
    var n := StrLCpy(parts, 0, expression + [NUL], NAME_MAX);
    ghost var e := Take(expression, NAME_LIMIT);
    assert parts[..|e|] == parts[0..0 + |e|];
  }

  /** Puts a NUL where the string is cut, and a second one over an arrow head. */
  method Poke(parts: array<char>, ghost e: string, ghost n: nat, at: nat, arrow: bool)
    requires Holds(parts, e, n) && at < n && (arrow ==> at + 1 < n)
    modifies parts
    ensures Holds(parts, e, at)
    ensures forall i :: at + (if arrow then 2 else 1) <= i < parts.Length ==> parts[i] == old(parts[i])
  {
    assert forall i :: 0 <= i < at ==> parts[i] == parts[..n][i];
    parts[at] := NUL;
    if arrow {
      parts[at + 1] := NUL;
    }
    assert parts[..at] == e[..at];
  }

  /** The text behind a cut is still there. */
  lemma RestIntact(parts: array<char>, e: string, next: nat)
    requires next <= |e| < parts.Length && NUL !in e
    requires parts[next..|e|] == e[next..] && parts[|e|] == NUL
    ensures CStr(parts[next..]) == e[next..]
  {
    assert parts[next..][..|e| - next] == parts[next..|e|];
    CStrIs(parts[next..], |e| - next);
  }

  lemma KeptBehind(was: seq<char>, now: seq<char>, e: string, next: nat)
    requires next <= |e| < |was| == |now| && was[..|e|] == e && was[|e|] == NUL
    requires forall i :: next <= i < |was| ==> now[i] == was[i]
    ensures now[next..|e|] == e[next..] && now[|e|] == NUL
  {
    assert forall i :: 0 <= i < |e| ==> was[i] == was[..|e|][i];
  }

  /** Cuts the path from the right until the debugger resolves what is left. */
  method FindRoot(w: World, parts: array<char>, ghost e: string) returns (root: Option<Value>, next: nat)
    requires Holds(parts, e, |e|)
    modifies parts
    ensures match Root(w, e)
            case None => root.None?
            case Some((v, k)) => root == Some(v) && next == k
  {
    hide Find, CStr;
    ghost var n := |e|;
    assert e[..n] == e;
    while true
      invariant n <= |e| && Holds(parts, e, n) && Root(w, e) == Root(w, e[..n])
      decreases n
    {
      HoldsString(parts, e, n);
      var s := CStr(parts[..]);
      var pchildren := StrFind(s, ".", -1, "->");
      if pchildren >= 0 {
        next := pchildren + 1;
        Poke(parts, e, n, pchildren, false);
      } else {
        pchildren := StrFind(s, "->", -1, "");
        if pchildren >= 0 {
          next := pchildren + 2;
          Poke(parts, e, n, pchildren, true);
        } else {
          pchildren := StrFind(s, "[", -1, "");
          if pchildren < 0 {
            return None, 0;
          }
          next := pchildren;
          Poke(parts, e, n, pchildren, false);
        }
      }
      assert s[..pchildren] == e[..pchildren];
      n := pchildren;
      HoldsString(parts, e, n);
      root := w.resolve(CStr(parts[..]));
      if root.Some? {
        return;
      }
    }
  }

  /** Splits the first part of the path off in place; `next` is where the others start. */
  method SplitFirst(parts: array<char>, ghost e: string) returns (cut: bool, next: nat)
    requires Holds(parts, e, |e|)
    modifies parts
    ensures var c := CutFirst(e);
            && cut == c.Cut?
            && CStr(parts[..]) == (if c.Cut? then e[..c.end] else e)
            && (c.Cut? ==> next == c.next && CStr(parts[next..]) == e[next..])
  {
    HoldsString(parts, e, |e|);
    assert e[..|e|] == e;
    var s := CStr(parts[..]);
    next := 0;
    var at := StrFind(s, ".", 1, "->");
    var arrow := false;
    if at < 0 {
      at := StrFind(s, "->", 1, "");
      arrow := true;
    }
    if at < 0 {
      return false, 0;
    }
    next := at + if arrow then 2 else 1;
    hide Find, Take, CStr;
    ghost var was := parts[..];
    assert was[..|e|] == e;
    Poke(parts, e, |e|, at, arrow);
    KeptBehind(was, parts[..], e, next);
    HoldsString(parts, e, at);
    RestIntact(parts, e, next);
    cut := true;
  }

  method FindChild(children: seq<Value>, name: string, max: int) returns (child: Option<Value>)
    ensures child == FirstChild(children, name, max)
  {
    var i := 0;
    while i < |children| && i < max
      invariant i <= |children| && FirstChild(children, name, max) == FirstChild(children[i..], name, max - i)
    {
      if children[i].ok {
        if GetName(children[i]) == name {
          return Some(children[i]);
        }
      }
      i := i + 1;
    }
    return None;
  }

  method GetDirectPathVariable(w: World, expression: string, parent: Option<Value>, depth: int)
    returns (found: Option<Value>)
    requires NUL !in expression
    ensures found == Direct(w, expression, parent, depth)
    decreases parent.None?, |expression|
  {
    hide CutFirst, Root, FirstChild, CStr, Take;
    var parts := new char[NAME_MAX];
    Fill(parts, expression);
    ghost var e := Take(expression, NAME_LIMIT);
    if parent.None? {
      var root, next := FindRoot(w, parts, e);
      if root.None? {
        return None;
      }
      Fill(parts, expression);
      assert parts[next..|e|] == parts[..|e|][next..];
      RestIntact(parts, e, next);
      found := GetDirectPathVariable(w, CStr(parts[next..]), root, depth - 1);
      return;
    }
    var cut, next := SplitFirst(parts, e);
    if depth <= 1 {
      return None;
    }
    var child := FindChild(parent.value.children, CStr(parts[..]), w.childrenMax);
    if child.None? || !cut {
      return child;
    }
    found := GetDirectPathVariable(w, CStr(parts[next..]), child, depth - 1);
  }
}
