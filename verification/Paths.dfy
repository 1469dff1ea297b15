/** Paths with structure: what the lookup on strings means for components joined by "." and "->". */
module Paths {
  import opened CStrings
  import opened PathLookup

  datatype Sep = Dot | Arrow

  datatype Part = Part(sep: Sep, name: string)

  /** A base name, its array indices, and the members that follow. */
  datatype Path = Path(base: string, indices: seq<string>, parts: seq<Part>)

  /** A component: some text without separator in it. */
  predicate Plain(name: string) {
    && name != "" && '.' !in name && NUL !in name
    && forall i :: 0 <= i < |name| - 1 ==> !(name[i] == '-' && name[i + 1] == '>')
  }

  /** An index is a component that starts with its only opening bracket. */
  predicate IsIndex(name: string) {
    Plain(name) && name[0] == '[' && forall i :: 1 <= i < |name| ==> name[i] != '['
  }

  ghost predicate WellFormed(p: Path) {
    && Plain(p.base) && '[' !in p.base
    && (forall i :: 0 <= i < |p.indices| ==> IsIndex(p.indices[i]))
    && (forall i :: 0 <= i < |p.parts| ==> Plain(p.parts[i].name))
  }

  // ---------- minus signs that are not taken for arrows ----------

  /** No minus sign before the last two characters. */
  predicate LateMinus(name: string) {
    forall i :: 0 <= i < |name| - 2 ==> name[i] != '-'
  }

  /** No minus sign in a component that a dot follows: the first one, or any of the members. */
  predicate NoMinusBeforeDot(name: string, parts: seq<Part>) {
    && (parts != [] && parts[0].sep.Dot? ==> '-' !in name)
    && forall j :: 1 <= j < |parts| && parts[j].sep.Dot? ==> '-' !in parts[j - 1].name
  }

  /** The minus signs of the path stand where the code does not take them for arrows. The base name,
      and members behind an arrow that no dot follows, may have them anywhere. */
  predicate MinusSafe(p: Path) {
    && NoMinusBeforeDot(Concat(p.indices), p.parts)
    && forall i :: 0 <= i < |p.parts| && p.parts[i].sep.Dot? ==> LateMinus(p.parts[i].name)
  }

  // ---------- rendering ----------

  function SepText(sep: Sep): string {
    if sep.Dot? then "." else "->"
  }

  function Concat(names: seq<string>): string {
    if names == [] then "" else Concat(names[..|names| - 1]) + names[|names| - 1]
  }

  function First(p: Path, indices: nat): string
    requires indices <= |p.indices|
  {
    p.base + Concat(p.indices[..indices])
  }

  /** The text of the first `k` members behind the base. */
  function Upto(p: Path, k: nat): string
    requires k <= |p.parts|
  {
    if k == 0 then First(p, |p.indices|) else Upto(p, k - 1) + SepText(p.parts[k - 1].sep) + p.parts[k - 1].name
  }

  function Render(p: Path): string {
    Upto(p, |p.parts|)
  }

  /** The text of members with their separators. */
  function Behind(parts: seq<Part>): string {
    if parts == [] then "" else SepText(parts[0].sep) + parts[0].name + Behind(parts[1..])
  }

  // ---------- the lookup, on structure ----------

  /** Follows the members down from a value: the first valid child of each name, among the first
      `max` children. */
  function Follow(v: Value, name: string, parts: seq<Part>, max: int): Option<Value>
    decreases |parts|
  {
    var child := FirstChild(v.children, name, max);
    if child.None? || parts == [] then child else Follow(child.value, parts[0].name, parts[1..], max)
  }

  /** A root the debugger resolves, and the members left to follow. */
  datatype Found = Found(root: Value, name: string, parts: seq<Part>)

  /** The longest prefix that ends before a member, else before an index, and resolves. */
  function BeforePart(w: World, p: Path, k: nat): Option<Found>
    requires k <= |p.parts|
  {
    if k == 0 then BeforeIndex(w, p, |p.indices|)
    else
      var v := w.resolve(Upto(p, k - 1));
      if v.Some? then Some(Found(v.value, p.parts[k - 1].name, p.parts[k..])) else BeforePart(w, p, k - 1)
  }

  function BeforeIndex(w: World, p: Path, j: nat): Option<Found>
    requires j <= |p.indices|
  {
    if j == 0 then None
    else
      var v := w.resolve(First(p, j - 1));
      if v.Some? then Some(Found(v.value, Concat(p.indices[j - 1..]), p.parts)) else BeforeIndex(w, p, j - 1)
  }

  /** The lookup: the longest resolvable root, then its members, if they are at most `depth - 2`. */
  function Lookup(w: World, p: Path, depth: int): Option<Value> {
    var found := BeforePart(w, p, |p.parts|);
    if found.None? || 1 + |found.value.parts| > depth - 2 then None
    else Follow(found.value.root, found.value.name, found.value.parts, w.childrenMax)
  }

  // ---------- cutting rendered text ----------

  lemma CutLastDot(a: string, name: string)
    requires Plain(name) && LateMinus(name)
    ensures CutLast(a + "." + name) == Cut(|a|, |a| + 1)
  {
    var s := a + "." + name;
    assert s[|a|] == '.' && forall i :: |a| + 1 <= i < |s| ==> s[i] == name[i - |a| - 1];
    OneChar(s, '.');
    FindIs(s, ".", -1, "->", |a|);
  }

  /** Behind a dot, a minus sign before the last two characters makes the search miss the dot. */
  lemma CutLastMissed(a: string, name: string)
    requires Plain(name) && !LateMinus(name)
    ensures var c := CutLast(a + "." + name); c.Cut? ==> c.end != |a|
  {
    var s := a + "." + name;
    assert s[|a|] == '.' && forall i :: |a| + 1 <= i < |s| ==> s[i] == name[i - |a| - 1];
    var j :| 0 <= j < |name| - 2 && name[j] == '-';
    DotMissing(s, |a| + 1 + j);
    CutElsewhere(s, |a|);
  }

  /** Once the dot is missed the cut is at an arrow or a bracket. */
  lemma CutElsewhere(s: string, dot: nat)
    requires Find(s, ".", -1, "->") == -1 && dot < |s| && s[dot] == '.'
    ensures var c := CutLast(s); c.Cut? ==> c.end != dot
  {
    hide Find;
    HitStarts(s, "->", Find(s, "->", -1, ""));
    HitStarts(s, "[", Find(s, "[", -1, ""));
  }

  lemma HitStarts(s: string, find: string, i: int)
    requires find != ""
    ensures Hit(s, find, i) ==> s[i] == find[0]
  {
    if Hit(s, find, i) {
      assert s[i..i + |find|][0] == s[i];
    }
  }

  lemma DotMissing(s: string, i: nat)
    requires i < |s| - 2 && s[i] == '-' && forall j :: i < j < |s| ==> s[j] != '.'
    ensures Find(s, ".", -1, "->") == -1
  {
    OneChar(s, '.');
    assert Stop(s, ".", "->", i);
    ScanStops(s, ".", -1, "->", |s| - 1, i);
  }

  lemma CutLastArrow(a: string, name: string)
    requires Plain(name)
    ensures CutLast(a + "->" + name) == Cut(|a|, |a| + 2)
  {
    var s := a + "->" + name;
    assert s[|a|] == '-' && s[|a| + 1] == '>' && forall i :: |a| + 2 <= i < |s| ==> s[i] == name[i - |a| - 2];
    DotMissing(s, |a|);
    TwoChars(s);
    FindIs(s, "->", -1, "", |a|);
  }

  /** Hits and stops of the patterns used, by characters. */
  lemma OneChar(s: string, c: char)
    ensures forall i :: Hit(s, [c], i) <==> 0 <= i < |s| && s[i] == c
    ensures forall i :: Stop(s, [c], "->", i) <==> 0 <= i < |s| - 2 && s[i] == '-'
    ensures forall i :: !Stop(s, [c], "", i)
  {
    forall i | 0 <= i < |s|
      ensures s[i..i + 1] == [s[i]]
    {}
    assert "->"[..1] == ['-'];
  }

  lemma TwoChars(s: string)
    ensures forall i :: Hit(s, "->", i) <==> 0 <= i < |s| - 1 && s[i] == '-' && s[i + 1] == '>'
    ensures forall i :: !Stop(s, "->", "", i)
  {
    forall i
      ensures Hit(s, "->", i) <==> 0 <= i < |s| - 1 && s[i] == '-' && s[i + 1] == '>'
    {
      if 0 <= i < |s| - 1 {
        var q := s[i..i + 2];
        assert q[0] == s[i] && q[1] == s[i + 1];
        assert q == "->" <==> q[0] == '-' && q[1] == '>';
      }
    }
  }

  lemma CutFirstArrow(name: string, b: string)
    requires Plain(name) && b != ""
    ensures CutFirst(name + "->" + b) == Cut(|name|, |name| + 2)
  {
    var s := name + "->" + b;
    assert forall i :: 0 <= i < |name| ==> s[i] == name[i];
    assert s[|name|] == '-' && s[|name| + 1] == '>';
    FirstDotMissing(s, |name|);
    TwoChars(s);
    FindIs(s, "->", 1, "", |name|);
  }

  lemma CutFirstDot(name: string, b: string)
    requires Plain(name) && '-' !in name && b != ""
    ensures CutFirst(name + "." + b) == Cut(|name|, |name| + 1)
  {
    var s := name + "." + b;
    assert forall i :: 0 <= i < |name| ==> s[i] == name[i];
    assert s[|name|] == '.';
    OneChar(s, '.');
    FindIs(s, ".", 1, "->", |name|);
  }

  /** Before a dot, any minus sign makes the search miss the dot. */
  lemma CutFirstMissed(name: string, b: string)
    requires Plain(name) && '-' in name && b != ""
    ensures var c := CutFirst(name + "." + b); c.Cut? ==> c.end != |name|
  {
    var s := name + "." + b;
    assert forall i :: 0 <= i < |name| ==> s[i] == name[i];
    var j :| 0 <= j < |name| && name[j] == '-';
    FirstDotMissing(s, j);
    FirstCutElsewhere(s, |name|);
  }

  lemma FirstDotMissing(s: string, i: nat)
    requires i < |s| - 2 && s[i] == '-' && forall j :: 0 <= j < i ==> s[j] != '.'
    ensures Find(s, ".", 1, "->") == -1
  {
    OneChar(s, '.');
    assert Stop(s, ".", "->", i);
    ScanStops(s, ".", 1, "->", 0, i);
  }

  lemma FirstCutElsewhere(s: string, dot: nat)
    requires Find(s, ".", 1, "->") == -1 && dot < |s| && s[dot] == '.'
    ensures var c := CutFirst(s); c.Cut? ==> c.end != dot
  {
    hide Find;
    HitStarts(s, "->", Find(s, "->", 1, ""));
  }

  lemma CutPlain(s: string)
    requires Plain(s)
    ensures CutFirst(s) == NoCut
    ensures Find(s, ".", -1, "->") == -1 && Find(s, "->", -1, "") == -1
  {
    OneChar(s, '.');
    TwoChars(s);
    assert forall i :: 0 <= i < |s| ==> s[i] != '.';
    forall i
      ensures !Hit(s, "->", i)
    {
      if 0 <= i < |s| - 1 {
        assert !(s[i] == '-' && s[i + 1] == '>');
      }
    }
    FindNothing(s, ".", 1, "->");
    FindNothing(s, "->", 1, "");
    FindNothing(s, ".", -1, "->");
    FindNothing(s, "->", -1, "");
  }

  lemma CutLastIndex(a: string, index: string)
    requires Plain(a + index) && IsIndex(index)
    ensures CutLast(a + index) == Cut(|a|, |a|)
  {
    var s := a + index;
    assert forall i :: |a| <= i < |s| ==> s[i] == index[i - |a|];
    CutPlain(s);
    OneChar(s, '[');
    FindIs(s, "[", -1, "", |a|);
  }

  lemma CutBase(s: string)
    requires Plain(s) && '[' !in s
    ensures CutLast(s) == NoCut
  {
    CutPlain(s);
    OneChar(s, '[');
    FindNothing(s, "[", -1, "");
  }

  // ---------- the lookup on strings is the lookup on structure ----------

  lemma {:induction false} ConcatPlain(a: string, names: seq<string>)
    requires Plain(a) && forall i :: 0 <= i < |names| ==> IsIndex(names[i])
    ensures Plain(a + Concat(names))
  {
    if names == [] {
      assert a + "" == a;
    } else {
      ConcatPlain(a, names[..|names| - 1]);
      assert a + Concat(names) == (a + Concat(names[..|names| - 1])) + names[|names| - 1];
    }
  }

  lemma {:induction false} ConcatSplit(names: seq<string>, i: nat)
    requires i <= |names|
    ensures Concat(names) == Concat(names[..i]) + Concat(names[i..])
  {
    if i == |names| {
      assert names[..i] == names && Concat(names[i..]) == "";
    } else {
      var n := |names| - 1;
      ConcatSplit(names[..n], i);
      assert names[..n][..i] == names[..i] && names[..n][i..] == names[i..][..n - i];
      assert names[i..][n - i] == names[n];
    }
  }

  lemma {:induction false} RenderSplit(p: Path, k: nat)
    requires k <= |p.parts|
    ensures Render(p) == Upto(p, k) + Behind(p.parts[k..])
    decreases |p.parts| - k
  {
    if k < |p.parts| {
      hide SepText, Concat;
      RenderSplit(p, k + 1);
      var part := p.parts[k];
      assert p.parts[k..][1..] == p.parts[k + 1..];
      Regroup(Upto(p, k), SepText(part.sep), part.name, Behind(p.parts[k + 1..]));
    }
  }

  lemma Regroup(a: string, b: string, c: string, d: string)
    ensures a + b + c + d == a + (b + c + d)
  {}

  /** The root search on text found what the search on structure found: the same value, and exactly
      the text behind it. */
  ghost predicate SameRoot(p: Path, r: Option<(Value, nat)>, f: Option<Found>) {
    match f
    case None => r.None?
    case Some(f) =>
      && r.Some? && r.value.0 == f.root && r.value.1 <= |Render(p)|
      && Render(p)[r.value.1..] == f.name + Behind(f.parts)
      && Plain(f.name) && (forall i :: 0 <= i < |f.parts| ==> Plain(f.parts[i].name))
      && (NoMinusBeforeDot(Concat(p.indices), p.parts) ==> NoMinusBeforeDot(f.name, f.parts))
  }

  lemma {:induction false} RootBeforeIndex(w: World, p: Path, j: nat)
    requires WellFormed(p) && j <= |p.indices|
    ensures SameRoot(p, Root(w, First(p, j)), BeforeIndex(w, p, j))
  {
    if j == 0 {
      assert First(p, j) == p.base;
      CutBase(p.base);
    } else {
      hide Root, Render, Plain, Behind, NoMinusBeforeDot;
      IndexStep(w, p, j);
      RootBeforeIndex(w, p, j - 1);
      IndexText(p, j - 1);
      assert Render(p)[|First(p, j - 1)|..] == Concat(p.indices[j - 1..]) + Behind(p.parts);
    }
  }

  /** One turn of the root search on text: the last index goes. */
  lemma IndexStep(w: World, p: Path, j: nat)
    requires WellFormed(p) && 0 < j <= |p.indices|
    ensures var a, v := First(p, j - 1), w.resolve(First(p, j - 1));
            Root(w, First(p, j)) == if v.Some? then Some((v.value, |a|)) else Root(w, a)
  {
    hide CutLast;
    var a, index := First(p, j - 1), p.indices[j - 1];
    assert p.indices[..j][..j - 1] == p.indices[..j - 1];
    assert First(p, j) == a + index;
    ConcatPlain(p.base, p.indices[..j]);
    CutLastIndex(a, index);
    assert First(p, j)[..|a|] == a;
  }

  lemma IndicesPlain(names: seq<string>)
    requires names != [] && forall i :: 0 <= i < |names| ==> IsIndex(names[i])
    ensures Plain(Concat(names))
  {
    hide Plain;
    ConcatSplit(names, 1);
    assert names[..1] == [names[0]] && [names[0]][..0] == [];
    assert Concat([names[0]]) == "" + names[0] == names[0];
    ConcatPlain(names[0], names[1..]);
  }

  /** The text behind the first `j` indices. */
  lemma IndexText(p: Path, j: nat)
    requires WellFormed(p) && j < |p.indices|
    ensures Render(p) == First(p, j) + (Concat(p.indices[j..]) + Behind(p.parts)) && Plain(Concat(p.indices[j..]))
    ensures NoMinusBeforeDot(Concat(p.indices), p.parts) ==> NoMinusBeforeDot(Concat(p.indices[j..]), p.parts)
  {
    hide Plain, Concat, Behind, Render;
    RenderSplit(p, 0);
    assert p.parts[0..] == p.parts && p.indices[..|p.indices|] == p.indices;
    ConcatSplit(p.indices, j);
    Regroup(p.base, Concat(p.indices[..j]), Concat(p.indices[j..]), Behind(p.parts));
    IndicesPlain(p.indices[j..]);
  }

  /** One turn of the root search on text: the last member goes. */
  lemma RootStep(w: World, p: Path, k: nat)
    requires WellFormed(p) && 0 < k <= |p.parts| && (p.parts[k - 1].sep.Dot? ==> LateMinus(p.parts[k - 1].name))
    ensures var a, v := Upto(p, k - 1), w.resolve(Upto(p, k - 1));
            Root(w, Upto(p, k)) ==
              if v.Some? then Some((v.value, |a| + |SepText(p.parts[k - 1].sep)|)) else Root(w, a)
  {
    hide CutLast, Plain, LateMinus;
    var a, part := Upto(p, k - 1), p.parts[k - 1];
    if part.sep.Dot? {
      CutLastDot(a, part.name);
    } else {
      CutLastArrow(a, part.name);
    }
    assert Upto(p, k)[..|a|] == a;
  }

  lemma PartText(p: Path, k: nat)
    requires 0 < k <= |p.parts|
    ensures var n := |Upto(p, k - 1)| + |SepText(p.parts[k - 1].sep)|;
            n <= |Render(p)| && Render(p)[n..] == p.parts[k - 1].name + Behind(p.parts[k..])
  {
    hide Behind, Render, SepText;
    RenderSplit(p, k);
    var a, part, b := Upto(p, k - 1), p.parts[k - 1], Behind(p.parts[k..]);
    assert Render(p) == (a + SepText(part.sep)) + (part.name + b) by {
      Regroup(a, SepText(part.sep), part.name, b);
    }
  }

  lemma {:induction false} RootBeforePart(w: World, p: Path, k: nat)
    requires WellFormed(p) && k <= |p.parts|
    requires forall i :: 0 <= i < k && p.parts[i].sep.Dot? ==> LateMinus(p.parts[i].name)
    ensures SameRoot(p, Root(w, Upto(p, k)), BeforePart(w, p, k))
  {
    hide Root, Render, SepText, Plain, Behind, LateMinus;
    if k == 0 {
      RootBeforeIndex(w, p, |p.indices|);
    } else {
      RootStep(w, p, k);
      RootBeforePart(w, p, k - 1);
      PartText(p, k);
    }
  }

  /** Following the members by text is following them by name, as far as the depth allows. */
  lemma {:induction false} FollowText(w: World, v: Value, name: string, parts: seq<Part>, depth: int)
    requires Plain(name) && (forall i :: 0 <= i < |parts| ==> Plain(parts[i].name)) && NoMinusBeforeDot(name, parts)
    requires |name + Behind(parts)| <= NAME_LIMIT
    ensures Direct(w, name + Behind(parts), Some(v), depth)
         == if 1 + |parts| > depth - 1 then None else Follow(v, name, parts, w.childrenMax)
    decreases |parts|
  {
    hide Direct, CutFirst, FirstChild, Behind;
    var e := name + Behind(parts);
    BehindText(name, parts);
    if parts == [] {
      CutPlain(e);
      DirectChild(w, e, v, depth, NoCut);
    } else {
      var b := parts[0].name + Behind(parts[1..]);
      if parts[0].sep.Dot? {
        CutFirstDot(name, b);
      } else {
        CutFirstArrow(name, b);
      }
      DirectChild(w, e, v, depth, Cut(|name|, |name| + |SepText(parts[0].sep)|));
      var child := FirstChild(v.children, name, w.childrenMax);
      if child.Some? {
        FollowText(w, child.value, parts[0].name, parts[1..], depth - 1);
      }
    }
  }

  lemma BehindText(name: string, parts: seq<Part>)
    requires forall i :: 0 <= i < |parts| ==> Plain(parts[i].name)
    ensures var e := name + Behind(parts);
            if parts == [] then e == name
            else var b, n := parts[0].name + Behind(parts[1..]), |name| + |SepText(parts[0].sep)|;
                 b != "" && n <= |e| && e == name + SepText(parts[0].sep) + b && e[..|name|] == name && e[n..] == b
  {
    if parts != [] {
      assert parts[0].name != "";
      ThreePieces(name, SepText(parts[0].sep), parts[0].name, Behind(parts[1..]));
    }
  }

  lemma ThreePieces(a: string, b: string, c: string, d: string)
    ensures var e, n := a + (b + c + d), |a| + |b|;
            n <= |e| && e == a + b + (c + d) && e[..|a|] == a && e[n..] == c + d
  {}

  /** One step down on text that fits the name buffer. */
  lemma DirectChild(w: World, e: string, v: Value, depth: int, c: Cut)
    requires |e| <= NAME_LIMIT && CutFirst(e) == c
    ensures var child := FirstChild(v.children, if c.Cut? then e[..c.end] else e, w.childrenMax);
            Direct(w, e, Some(v), depth) ==
              if depth <= 1 then None else if child.None? || c.NoCut? then child
              else Direct(w, e[c.next..], child, depth - 1)
  {
    hide CutFirst, FirstChild;
  }

  /** With its minus signs in safe places a path is looked up as its structure says. */
  lemma SafeLookup(w: World, p: Path, depth: int)
    requires WellFormed(p) && |Render(p)| <= NAME_LIMIT && MinusSafe(p)
    ensures Direct(w, Render(p), None, depth) == Lookup(w, p, depth)
  {
    hide NoMinusBeforeDot, LateMinus, Plain, Follow;
    RootBeforePart(w, p, |p.parts|);
    var found := BeforePart(w, p, |p.parts|);
    if found.Some? {
      FollowText(w, found.value.root, found.value.name, found.value.parts, depth - 1);
    }
  }

  // ---------- with a minus sign elsewhere the lookup misses a variable ----------

  /** A value with nothing below it. */
  const BARREN := Value(Option.None, true, [])

  /** The variable of that name, with the members below it one by one. */
  function Nest(name: string, parts: seq<Part>): Value
    decreases |parts|
  {
    Value(Some(name), true, if parts == [] then [] else [Nest(parts[0].name, parts[1..])])
  }

  function Owner(name: string, parts: seq<Part>): Value {
    Value(Option.None, true, [Nest(name, parts)])
  }

  /** The debugger resolves `root`, and finds nothing of interest in anything shorter than `limit`. */
  function Knows(root: string, v: Value, limit: nat): World {
    World(x => if x == root then Some(v) else if |x| < limit then Some(BARREN) else Option.None, 1)
  }

  lemma {:induction false} FollowNest(v: Value, name: string, parts: seq<Part>)
    requires v.children == [Nest(name, parts)]
    ensures Follow(v, name, parts, 1).Some?
    decreases |parts|
  {
    if parts != [] {
      FollowNest(Nest(name, parts), parts[0].name, parts[1..]);
    }
  }

  lemma {:induction false} UptoGrows(p: Path, i: nat, k: nat)
    requires i <= k <= |p.parts|
    ensures |Upto(p, i)| <= |Upto(p, k)| && (i < k ==> |Upto(p, i)| < |Upto(p, k)|)
  {
    if i < k {
      UptoGrows(p, i, k - 1);
    }
  }

  lemma PlainPart(p: Path, k: nat)
    requires WellFormed(p) && k < |p.parts|
    ensures Plain(p.parts[k].name)
  {}

  lemma UptoNone(p: Path)
    ensures Upto(p, 0) == p.base + Concat(p.indices)
  {
    assert p.indices[..|p.indices|] == p.indices;
  }

  lemma UptoDot(p: Path, k: nat)
    requires k < |p.parts| && p.parts[k].sep.Dot?
    ensures Upto(p, k + 1) == Upto(p, k) + "." + p.parts[k].name
  {}

  /** As long as nothing resolves, both searches go on, the one on text if it sees the separators. */
  lemma {:induction false} SearchGoesOn(w: World, p: Path, k: nat, m: nat)
    requires WellFormed(p) && k <= m <= |p.parts|
    requires forall i :: k <= i < m ==> w.resolve(Upto(p, i)).None?
    ensures BeforePart(w, p, m) == BeforePart(w, p, k)
    ensures (forall i :: k <= i < m && p.parts[i].sep.Dot? ==> LateMinus(p.parts[i].name)) ==>
              Root(w, Upto(p, m)) == Root(w, Upto(p, k))
  {
    hide Root, LateMinus, WellFormed, Upto;
    if k < m {
      SearchGoesOn(w, p, k, m - 1);
      if p.parts[m - 1].sep.Dot? ==> LateMinus(p.parts[m - 1].name) {
        RootStep(w, p, m);
      }
    }
  }

  /** A minus sign well before the end of the member behind the last dot to be cut: the search goes
      past the prefix that resolves. */
  lemma DotMissed(p: Path, k: nat)
    requires WellFormed(p) && |Render(p)| <= NAME_LIMIT && k < |p.parts|
    requires p.parts[k].sep.Dot? && !LateMinus(p.parts[k].name)
    requires forall i :: k < i < |p.parts| && p.parts[i].sep.Dot? ==> LateMinus(p.parts[i].name)
    ensures var name, rest := p.parts[k].name, p.parts[k + 1..];
            var w := Knows(Upto(p, k), Owner(name, rest), |Upto(p, k + 1)|);
            Lookup(w, p, |p.parts| + 3).Some? && Direct(w, Render(p), None, |p.parts| + 3).None?
  {
    hide LateMinus, WellFormed, Follow, Upto, Lookup, Root, Render;
    var name, rest := p.parts[k].name, p.parts[k + 1..];
    var w := Knows(Upto(p, k), Owner(name, rest), |Upto(p, k + 1)|);
    forall i | k < i < |p.parts|
      ensures w.resolve(Upto(p, i)).None?
    {
      UptoGrows(p, k + 1, i);
      UptoGrows(p, k, i);
    }
    SearchGoesOn(w, p, k + 1, |p.parts|);
    assert BeforePart(w, p, k + 1) == Some(Found(Owner(name, rest), name, rest));
    LookupFollows(w, p, name, rest);
    RootStrays(p, k);
    assert Render(p) == Upto(p, |p.parts|) by { RenderAll(p); }
    BarrenRoot(w, Render(p), |p.parts| + 3);
  }

  lemma RenderAll(p: Path)
    ensures Render(p) == Upto(p, |p.parts|)
  {}

  /** The search cuts somewhere in front of the dot or behind it, where nothing of interest is. */
  lemma RootStrays(p: Path, k: nat)
    requires WellFormed(p) && k < |p.parts| && p.parts[k].sep.Dot? && !LateMinus(p.parts[k].name)
    ensures var w := Knows(Upto(p, k), Owner(p.parts[k].name, p.parts[k + 1..]), |Upto(p, k + 1)|);
            var r := Root(w, Upto(p, k + 1)); r.None? || r.value.0 == BARREN
  {
    hide LateMinus, WellFormed, CutLast, Upto, Owner;
    var a, s := Upto(p, k), Upto(p, k + 1);
    var c := CutLast(s);
    assert s == a + "." + p.parts[k].name by { UptoDot(p, k); }
    PlainPart(p, k);
    CutLastMissed(a, p.parts[k].name);
    assert c.Cut? ==> |s[..c.end]| != |a|;
  }

  lemma BarrenRoot(w: World, e: string, depth: int)
    requires |e| <= NAME_LIMIT && (Root(w, e).None? || Root(w, e).value.0 == BARREN)
    ensures Direct(w, e, None, depth).None?
  {
    hide Root;
    var r := Root(w, e);
    if r.Some? {
      BarrenFails(w, e[r.value.1..], depth - 1);
    }
  }

  lemma BarrenFails(w: World, e: string, depth: int)
    ensures Direct(w, e, Some(BARREN), depth).None?
  {
    hide CutFirst, Take;
  }

  /** Where the search on structure finds the owner of the members, the lookup ends in the last. */
  lemma LookupFollows(w: World, p: Path, name: string, parts: seq<Part>)
    requires BeforePart(w, p, |p.parts|) == Some(Found(Owner(name, parts), name, parts)) && w.childrenMax == 1
    requires |parts| <= |p.parts|
    ensures Lookup(w, p, |p.parts| + 3).Some?
  {
    hide BeforePart, Follow;
    FollowNest(Owner(name, parts), name, parts);
  }

  /** A minus sign in a component that a dot follows: the split goes past that dot. */
  lemma SplitMissed(w: World, name: string, parts: seq<Part>, depth: int)
    requires Plain(name) && (forall i :: 0 <= i < |parts| ==> Plain(parts[i].name))
    requires parts != [] && parts[0].sep.Dot? && '-' in name && |name + Behind(parts)| <= NAME_LIMIT
    ensures Direct(w, name + Behind(parts), Some(Owner(name, parts)), depth).None?
  {
    hide Plain, Direct, CutFirst, Behind;
    var e := name + Behind(parts);
    BehindText(name, parts);
    var b := parts[0].name + Behind(parts[1..]);
    CutFirstMissed(name, b);
    assert e == name + "." + b;
    var c := CutFirst(e);
    DirectChild(w, e, Owner(name, parts), depth, c);
    assert |if c.Cut? then e[..c.end] else e| != |name|;
  }

  lemma MemberMissed(p: Path, k: nat)
    requires WellFormed(p) && |Render(p)| <= NAME_LIMIT && k + 1 < |p.parts|
    requires p.parts[k + 1].sep.Dot? && '-' in p.parts[k].name
    requires forall i :: 0 <= i < |p.parts| && p.parts[i].sep.Dot? ==> LateMinus(p.parts[i].name)
    ensures var name, rest := p.parts[k].name, p.parts[k + 1..];
            var w := Knows(Upto(p, k), Owner(name, rest), 0);
            Lookup(w, p, |p.parts| + 3).Some? && Direct(w, Render(p), None, |p.parts| + 3).None?
  {
    hide LateMinus, WellFormed, Follow, Upto, Lookup, Root, Behind;
    var name, rest := p.parts[k].name, p.parts[k + 1..];
    var w := Knows(Upto(p, k), Owner(name, rest), 0);
    forall i | k < i < |p.parts|
      ensures w.resolve(Upto(p, i)).None?
    {
      UptoGrows(p, k, i);
    }
    SearchGoesOn(w, p, k + 1, |p.parts|);
    LookupFollows(w, p, name, rest);
    RootBeforePart(w, p, |p.parts|);
    FailsBelow(w, p, name, rest);
  }

  /** The owner is found, and the walk down fails at the first step. */
  lemma FailsBelow(w: World, p: Path, name: string, parts: seq<Part>)
    requires SameRoot(p, Root(w, Render(p)), Some(Found(Owner(name, parts), name, parts)))
    requires |Render(p)| <= NAME_LIMIT && parts != [] && parts[0].sep.Dot? && '-' in name
    ensures Direct(w, Render(p), None, |p.parts| + 3).None?
  {
    hide Root, Render, Owner, Plain, Behind;
    SplitMissed(w, name, parts, |p.parts| + 2);
  }

  lemma IndexMissed(p: Path)
    requires WellFormed(p) && |Render(p)| <= NAME_LIMIT
    requires p.parts != [] && p.parts[0].sep.Dot? && '-' in Concat(p.indices)
    requires forall i :: 0 <= i < |p.parts| && p.parts[i].sep.Dot? ==> LateMinus(p.parts[i].name)
    ensures var w := Knows(p.base, Owner(Concat(p.indices), p.parts), 0);
            Lookup(w, p, |p.parts| + 3).Some? && Direct(w, Render(p), None, |p.parts| + 3).None?
  {
    hide LateMinus, WellFormed, Follow, Upto, Lookup, Root, Behind;
    var name := Concat(p.indices);
    var w := Knows(p.base, Owner(name, p.parts), 0);
    forall i | 0 <= i < |p.parts|
      ensures w.resolve(Upto(p, i)).None?
    {
      assert Upto(p, 0) == p.base + name by { UptoNone(p); }
      UptoGrows(p, 0, i);
    }
    SearchGoesOn(w, p, 0, |p.parts|);
    IndexSearchGoesOn(w, p, |p.indices|);
    LookupFollows(w, p, name, p.parts);
    RootBeforePart(w, p, |p.parts|);
    FailsBelow(w, p, name, p.parts);
  }

  lemma {:induction false} IndexSearchGoesOn(w: World, p: Path, j: nat)
    requires WellFormed(p) && 0 < j <= |p.indices|
    requires forall s :: |s| > |p.base| ==> w.resolve(s).None?
    requires w.resolve(p.base).Some?
    ensures BeforeIndex(w, p, j) == Some(Found(w.resolve(p.base).value, Concat(p.indices), p.parts))
  {
    if j == 1 {
      assert First(p, 0) == p.base && p.indices[0..] == p.indices;
    } else {
      assert p.indices[..j - 1][j - 2] == p.indices[j - 2] && IsIndex(p.indices[j - 2]);
      IndexSearchGoesOn(w, p, j - 1);
    }
  }

  /** The lookup on strings does what the structure of the path says, whatever the debugger knows. */
  ghost predicate AlwaysSame(p: Path) {
    forall w: World, depth: int :: Direct(w, Render(p), None, depth) == Lookup(w, p, depth)
  }

  lemma {:induction false} LateMinusNeeded(p: Path, k: nat)
    requires WellFormed(p) && |Render(p)| <= NAME_LIMIT && k <= |p.parts|
    requires exists i :: 0 <= i < k && p.parts[i].sep.Dot? && !LateMinus(p.parts[i].name)
    requires forall i :: k <= i < |p.parts| && p.parts[i].sep.Dot? ==> LateMinus(p.parts[i].name)
    ensures !AlwaysSame(p)
  {
    hide WellFormed, LateMinus, Lookup, Direct, Render;
    if p.parts[k - 1].sep.Dot? && !LateMinus(p.parts[k - 1].name) {
      DotMissed(p, k - 1);
    } else {
      LateMinusNeeded(p, k - 1);
    }
  }

  /** For every structured path that fits the name buffer, the lookup on strings is the lookup on
      structure (longest resolvable root, then the members, at most `depth - 2` of them) whatever
      the debugger knows, if and only if its minus signs are in safe places. */
  lemma LookupIsLookup(p: Path)
    requires WellFormed(p) && |Render(p)| <= NAME_LIMIT
    ensures AlwaysSame(p) <==> MinusSafe(p)
  {
    hide WellFormed, LateMinus, Lookup, Direct, Render;
    if MinusSafe(p) {
      forall w: World, depth: int
        ensures Direct(w, Render(p), None, depth) == Lookup(w, p, depth)
      {
        SafeLookup(w, p, depth);
      }
    } else if exists i :: 0 <= i < |p.parts| && p.parts[i].sep.Dot? && !LateMinus(p.parts[i].name) {
      LateMinusNeeded(p, |p.parts|);
    } else if p.parts != [] && p.parts[0].sep.Dot? && '-' in Concat(p.indices) {
      IndexMissed(p);
    } else {
      var j :| 1 <= j < |p.parts| && p.parts[j].sep.Dot? && '-' in p.parts[j - 1].name;
      MemberMissed(p, j - 1);
    }
  }

  /** The element of an array, its index an expression: the structure leads to the variable, the
      text does not. */
  lemma MinusFails()
    ensures var p := Path("a", [], [Part(Dot, "v[n-1]"), Part(Dot, "b")]);
            var w := Knows("a", Owner("v[n-1]", [Part(Dot, "b")]), 0);
            && WellFormed(p) && Render(p) == "a.v[n-1].b"
            && Lookup(w, p, 9).Some? && Direct(w, "a.v[n-1].b", None, 9).None?
  {
    var name, b := "v[n-1]", Part(Dot, "b");
    var p := Path("a", [], [Part(Dot, name), b]);
    var w := Knows("a", Owner(name, [b]), 0);
    ElementPath(p);
    ElementFound(w, p);
    ElementRoot(w);
    assert Behind([b]) == ".b" by {
      assert [b][1..] == [];
    }
    assert "a.v[n-1].b"[2..] == name + Behind([b]);
    assert name[3] == '-';
    SplitMissed(w, name, [b], 8);
  }

  lemma ElementPath(p: Path)
    requires p == Path("a", [], [Part(Dot, "v[n-1]"), Part(Dot, "b")])
    ensures WellFormed(p) && Upto(p, 0) == "a" && Upto(p, 1) == "a.v[n-1]" && Render(p) == "a.v[n-1].b"
  {
    assert p.indices[..0] == [];
    assert First(p, 0) == "a" + "";
    assert Upto(p, 1) == "a" + "." + "v[n-1]";
    assert Upto(p, 2) == "a.v[n-1]" + "." + "b";
  }

  lemma ElementFound(w: World, p: Path)
    requires p == Path("a", [], [Part(Dot, "v[n-1]"), Part(Dot, "b")])
    requires w == Knows("a", Owner("v[n-1]", [Part(Dot, "b")]), 0)
    ensures Lookup(w, p, 9).Some?
  {
    hide Follow;
    ElementPath(p);
    assert p.parts[1..] == [Part(Dot, "b")];
    assert BeforePart(w, p, 1) == Some(Found(Owner("v[n-1]", p.parts[1..]), "v[n-1]", p.parts[1..]));
    FollowNest(Owner("v[n-1]", p.parts[1..]), "v[n-1]", p.parts[1..]);
  }

  lemma ElementRoot(w: World)
    requires w == Knows("a", Owner("v[n-1]", [Part(Dot, "b")]), 0)
    ensures Root(w, "a.v[n-1].b") == Some((w.resolve("a").value, 2))
  {
    hide CutLast;
    var s, t, u := "a.v[n-1].b", "a.v[n-1]", "a.v";
    CutLastDot(t, "b");
    assert s == t + "." + "b" && s[..8] == t;
    ElementCut();
    assert t[..3] == u;
    CutLastDot("a", "v");
    assert u == "a" + "." + "v" && u[..1] == "a";
    assert Root(w, u) == Some((w.resolve("a").value, 2));
    assert Root(w, t) == Root(w, u);
  }

  /** The minus sign hides the dot, and the bracket is taken instead. */
  lemma ElementCut()
    ensures CutLast("a.v[n-1]") == Cut(3, 3)
  {
    hide Find;
    var s := "a.v[n-1]";
    DotMissing(s, 5);
    TwoChars(s);
    assert '>' !in s;
    forall i
      ensures !Hit(s, "->", i)
    {
      assert 0 <= i < |s| - 1 ==> s[i + 1] in s;
    }
    FindNothing(s, "->", -1, "");
    OneChar(s, '[');
    FindIs(s, "[", -1, "", 3);
  }
}
