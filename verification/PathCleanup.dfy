/** The clean-up of expression paths: "->[" and ".[" become "[", ".." becomes ".", and a final dot goes. */
module PathCleanup {
  import opened CStrings
  import opened StrSearch
  import opened StringBs

  // ---------- the rules ----------

  const ARROW_INDEX := "->["
  const DOT_INDEX := ".["
  const DOT_DOT := ".."

  predicate Redex(p: string) {
    p == ARROW_INDEX || p == DOT_INDEX || p == DOT_DOT
  }

  /** The string with all but the last character of the pattern at `i` taken out. */
  function Suppress(s: string, p: string, i: nat): string
    requires Redex(p) && OccursAt(s, p, i)
  {
    s[..i] + s[i + |p| - 1..]
  }

  /** One rewriting step: any pattern, anywhere in the string. */
  ghost predicate Step(s: string, t: string) {
    exists p, i: nat :: Redex(p) && OccursAt(s, p, i) && t == Suppress(s, p, i)
  }

  /** A chain of steps, each at any place and by any rule. */
  ghost predicate Chain(steps: seq<string>) {
    forall i, j :: 0 <= i && j == i + 1 && j < |steps| ==> Step(steps[i], steps[j])
  }

  ghost predicate Irreducible(s: string) {
    forall p, i: nat :: Redex(p) ==> !OccursAt(s, p, i)
  }

  // ---------- one pass from right to left ----------

  function Push(c: char, t: string): string {
    if c == '.' && t != "" && (t[0] == '.' || t[0] == '[') then t
    else if c == '-' && |t| >= 2 && t[0] == '>' && t[1] == '[' then t[1..]
    else [c] + t
  }

  function Normal(s: string): string {
    if s == "" then "" else Push(s[0], Normal(s[1..]))
  }

  predicate EndsInDot(s: string) {
    s != "" && s[|s| - 1] == '.'
  }

  function DropDot(s: string): string {
    if EndsInDot(s) then s[..|s| - 1] else s
  }

  function Cleanup(s: string): string {
    DropDot(Normal(s))
  }

  /** A step in front of a common rest does not change the result. */
  lemma {:induction false} NormalContext(pre: string, s: string, t: string)
    requires Normal(s) == Normal(t)
    ensures Normal(pre + s) == Normal(pre + t)
  {
    if pre == "" {
      assert pre + s == s && pre + t == t;
    } else {
      assert (pre + s)[1..] == pre[1..] + s && (pre + t)[1..] == pre[1..] + t;
      NormalContext(pre[1..], s, t);
    }
  }

  lemma RedexNormal(a: string, p: string)
    requires Redex(p) && OccursAt(a, p, 0)
    ensures Normal(a) == Normal(a[|p| - 1..])
  {
    FirstChars(a, p, 0);
    assert a[1..][1..] == a[2..];
  }

  /** The characters of an occurrence. */
  lemma FirstChars(s: string, p: string, i: nat)
    requires Redex(p)
    ensures OccursAt(s, p, i) <==>
              i + |p| <= |s| && s[i] == p[0] && s[i + 1] == p[1] && (|p| == 3 ==> s[i + 2] == p[2])
  {
    if i + |p| <= |s| {
      var q := s[i..i + |p|];
      assert q[0] == s[i] && q[1] == s[i + 1] && (|p| == 3 ==> q[2] == s[i + 2]);
      assert q == p <==> q[0] == p[0] && q[1] == p[1] && (|p| == 3 ==> q[2] == p[2]);
    }
  }

  lemma StepKeepsNormal(s: string, p: string, i: nat)
    requires Redex(p) && OccursAt(s, p, i)
    ensures Normal(s) == Normal(Suppress(s, p, i)) && |Suppress(s, p, i)| < |s|
  {
    assert 2 <= |p| <= 3;
    hide *;
    var a := s[i..];
    assert a[..|p|] == s[i..i + |p|];
    RedexInside(s[..i], a, p);
    assert s == s[..i] + a;
    assert a[|p| - 1..] == s[i + |p| - 1..];
  }

  lemma RedexInside(pre: string, a: string, p: string)
    requires Redex(p) && |p| <= |a| && a[..|p|] == p
    ensures Normal(pre + a) == Normal(pre + a[|p| - 1..])
  {
    hide Normal;
    RedexNormal(a, p);
    NormalContext(pre, a, a[|p| - 1..]);
  }

  /** An irreducible string is irreducible behind its first character, and pushing that one onto the
      rest gives the string back. */
  lemma IrreducibleTail(s: string)
    requires s != "" && Irreducible(s)
    ensures Irreducible(s[1..]) && Push(s[0], s[1..]) == s
  {
    forall p, i: nat | Redex(p)
      ensures !OccursAt(s[1..], p, i)
    {
      FirstChars(s, p, i + 1);
      FirstChars(s[1..], p, i);
      assert !OccursAt(s, p, i + 1);
    }
    FirstChars(s, DOT_DOT, 0);
    FirstChars(s, DOT_INDEX, 0);
    FirstChars(s, ARROW_INDEX, 0);
    assert !OccursAt(s, DOT_DOT, 0) && !OccursAt(s, DOT_INDEX, 0) && !OccursAt(s, ARROW_INDEX, 0);
  }

  lemma PushIrreducible(c: char, t: string)
    requires Irreducible(t)
    ensures Irreducible(Push(c, t))
  {
    var r := Push(c, t);
    if c == '-' && |t| >= 2 && t[0] == '>' && t[1] == '[' {
      IrreducibleTail(t);
    } else if r == [c] + t {
      forall p, i: nat | Redex(p)
        ensures !OccursAt(r, p, i)
      {
        FirstChars(r, p, i);
        if i > 0 {
          FirstChars(t, p, i - 1);
          assert !OccursAt(t, p, i - 1);
        }
      }
    }
  }

  lemma {:induction false} NormalIsIrreducible(s: string)
    ensures Irreducible(Normal(s))
  {
    if s != "" {
      NormalIsIrreducible(s[1..]);
      PushIrreducible(s[0], Normal(s[1..]));
    }
  }

  lemma {:induction false} IrreducibleIsNormal(s: string)
    requires Irreducible(s)
    ensures Normal(s) == s
  {
    if s != "" {
      IrreducibleTail(s);
      IrreducibleIsNormal(s[1..]);
    }
  }

  /** However the steps are chosen, a chain that cannot go on ends in the normal form of its start, and
      no chain is longer than the string. */
  lemma {:induction false} AnyOrder(steps: seq<string>)
    requires steps != [] && Chain(steps)
    ensures Normal(steps[|steps| - 1]) == Normal(steps[0]) && |steps| <= |steps[0]| + 1
    ensures Irreducible(steps[|steps| - 1]) <==> steps[|steps| - 1] == Normal(steps[0])
  {
    hide Normal;
    var first, last := steps[0], steps[|steps| - 1];
    if |steps| > 1 {
      assert Step(first, steps[1]);
      var p, i: nat :| Redex(p) && OccursAt(first, p, i) && steps[1] == Suppress(first, p, i);
      StepKeepsNormal(first, p, i);
      assert forall k :: 0 <= k < |steps| - 1 ==> steps[1..][k] == steps[k + 1];
      AnyOrder(steps[1..]);
    }
    NormalIsIrreducible(first);
    if Irreducible(last) {
      IrreducibleIsNormal(last);
    }
  }

  // ---------- what the clean-up keeps ----------

  /** `t` is `s` with some dots and arrows left out. */
  predicate Thinned(s: string, t: string) {
    if s == "" then t == ""
    else (t != "" && t[0] == s[0] && Thinned(s[1..], t[1..])) || (s[0] in ".->" && Thinned(s[1..], t))
  }

  lemma {:induction false} NormalThins(s: string)
    ensures Thinned(s, Normal(s))
    decreases s
  {
    if s != "" {
      NormalThins(s[1..]);
      var t := Normal(s[1..]);
      if Push(s[0], t) == [s[0]] + t {
        assert ([s[0]] + t)[1..] == t;
      } else if s[0] == '-' {
        // the '>' in front of "[" is the next character of the string
        ArrowThins(s[1..], t);
      }
    }
  }

  /** Leaving out a leading arrow head as well. */
  lemma {:induction false} ArrowThins(s: string, t: string)
    requires Thinned(s, t) && t != "" && t[0] == '>'
    ensures Thinned(s, t[1..])
  {
    if !(t[0] == s[0] && Thinned(s[1..], t[1..])) {
      ArrowThins(s[1..], t);
    }
  }

  lemma {:induction false} ThinnedDropDot(s: string, t: string)
    requires Thinned(s, t)
    ensures Thinned(s, DropDot(t))
  {
    if s != "" && t != "" && t[|t| - 1] == '.' {
      if t[0] == s[0] && Thinned(s[1..], t[1..]) {
        if |t| > 1 {
          ThinnedDropDot(s[1..], t[1..]);
          assert t[1..][|t| - 2] == t[|t| - 1] && t[..|t| - 1][1..] == t[1..][..|t| - 2];
        } else {
          assert Thinned(s[1..], DropDot(t));
        }
      } else {
        ThinnedDropDot(s[1..], t);
      }
    }
  }

  lemma PrefixIrreducible(s: string, n: nat)
    requires n <= |s| && Irreducible(s)
    ensures Irreducible(s[..n])
  {
    forall p, i: nat | Redex(p)
      ensures !OccursAt(s[..n], p, i)
    {
      FirstChars(s[..n], p, i);
      FirstChars(s, p, i);
      assert !OccursAt(s, p, i);
    }
  }

  /** The cleaned path has nothing left to clean: it is irreducible, does not end in a dot, and
      cleaning it again changes nothing; only dots and arrow characters were left out, and of the normal
      form nothing but the final dot the string ends in. */
  lemma CleanupIsClean(s: string)
    ensures Normal(s) == Cleanup(s) + if s != "" && s[|s| - 1] == '.' then "." else ""
    ensures var r := Cleanup(s);
            && Irreducible(r) && (r != "" ==> r[|r| - 1] != '.') && Cleanup(r) == r && Thinned(s, r)
  {
    var n, r := Normal(s), Cleanup(s);
    NormalKeepsLast(s);
    NormalIsIrreducible(s);
    PrefixIrreducible(n, |r|);
    assert r == n[..|r|];
    if |n| >= 2 {
      FirstChars(n, DOT_DOT, |n| - 2);
      assert !OccursAt(n, DOT_DOT, |n| - 2);
    }
    IrreducibleIsNormal(r);
    NormalThins(s);
    ThinnedDropDot(s, n);
  }

  /** No rule takes the last character away. */
  lemma {:induction false} NormalKeepsLast(s: string)
    ensures (Normal(s) == "" <==> s == "") && (s != "" ==> Normal(s)[|Normal(s)| - 1] == s[|s| - 1])
  {
    if s != "" {
      NormalKeepsLast(s[1..]);
    }
  }

  // ---------- the loop ----------

  /** Appends the path of a value to the buffer and cleans the result. A final dot is overwritten
      without adjusting the size, so the buffer object stays in order exactly if the text put
      together does not end in one. */
  method FormatExpressionPath(desc: StringB, path: string, named: bool) returns (r: string)
    requires desc.Valid() && NUL !in path && desc.size + |path| + |ANONYMOUS| < BIG_LIMIT
    modifies desc, desc.chars
    ensures var s := old(desc.Contents()) + path + if named then "" else ANONYMOUS;
            && r == Cleanup(s) && desc.chars != null && CStr(desc.chars[..]) == r
            && (desc.Valid() <==> !EndsInDot(s))
  {
    hide Cleanup, CStr;
    AppendPath(desc, path, named);
    Clean(desc);
    r := CStr(desc.chars[..]);
  }

  method AppendPath(desc: StringB, path: string, named: bool)
    requires desc.Valid() && NUL !in path && desc.size + |path| + |ANONYMOUS| < BIG_LIMIT
    modifies desc, desc.chars
    ensures desc.Terminated() && (desc.chars == old(desc.chars) || fresh(desc.chars))
    ensures desc.Contents() == old(desc.Contents()) + path + if named then "" else ANONYMOUS
  {
    desc.Append(path);
    if !named {
      desc.Append(ANONYMOUS);
    }
  }

  method Clean(desc: StringB)
    requires desc.Terminated()
    modifies desc, desc.chars
    ensures desc.chars == old(desc.chars) && CStr(desc.chars[..]) == Cleanup(old(desc.Contents()))
    ensures desc.Valid() <==> !EndsInDot(old(desc.Contents()))
  {
    hide Normal, CStr;
    NormalKeepsLast(desc.Contents());
    Rewrite(desc);
    DropLastDot(desc);
  }

  const ANONYMOUS := "(anonymous)"

  method DropLastDot(desc: StringB)
    requires desc.Terminated()
    modifies desc.chars
    ensures CStr(desc.chars[..]) == DropDot(old(desc.Contents()))
    ensures desc.Valid() <==> !EndsInDot(old(desc.Contents()))
  {
    hide CStr;
    ghost var n := desc.Contents();
    if desc.size > 0 && desc.chars[desc.size - 1] == '.' {
      desc.chars[desc.size - 1] := NUL;
      assert desc.chars[..desc.size - 1] == n[..|n| - 1];
      CStrIs(desc.chars[..], desc.size - 1);
      assert desc.chars[..desc.size][desc.size - 1] == NUL;
    } else {
      CStrIs(desc.chars[..], desc.size);
    }
  }

  /** A path with a final dot: the text comes out clean, the buffer object out of order. */
  method FinalDotFails() returns (desc: StringB, r: string)
    ensures fresh(desc) && r == "a.b" && !desc.Valid()
  {
    desc := new StringB.Empty();
    assert "" + "a..b." + "" == "a..b.";
    r := FormatExpressionPath(desc, "a..b.", true);
    FinalDotCleaned();
  }

  lemma FinalDotCleaned()
    ensures Cleanup("a..b.") == "a.b"
  {
    assert Normal("a..b.") == "a.b." by {
      assert "a..b."[1..] == "..b." && "..b."[1..] == ".b." && ".b."[1..] == "b." && "b."[1..] == ".";
      assert "."[1..] == "";
      assert Normal(".") == "." && Normal("b.") == "b." && Normal(".b.") == ".b." && Normal("..b.") == ".b.";
    }
  }

  /** What the loop looks for: the first arrow index, or else the first dot index, or else the first
      double dot. It suppresses all but the last character. */
  method FindRedex(str: string) returns (suppress: nat, pattern: string, pp: int)
    ensures suppress == 0 ==> Irreducible(str)
    ensures suppress > 0 ==>
              Redex(pattern) && pp >= 0 && OccursAt(str, pattern, pp) && suppress == |pattern| - 1
  {
    suppress, pattern := 0, ARROW_INDEX;
    pp := StrStr(str, pattern);
    if pp >= 0 {
      suppress := 2;
    } else {
      pattern := DOT_INDEX;
      pp := StrStr(str, pattern);
      if pp >= 0 {
        suppress := 1;
      } else {
        pattern := DOT_DOT;
        pp := StrStr(str, pattern);
        if pp >= 0 {
          suppress := 1;
        }
      }
    }
  }

  method Rewrite(desc: StringB)
    requires desc.Terminated()
    modifies desc, desc.chars
    ensures desc.Terminated() && desc.chars == old(desc.chars)
    ensures desc.Contents() == Normal(old(desc.Contents()))
  {
    hide Normal, Irreducible;
    ghost var s := desc.Contents();
    var suppress := 1;
    while suppress > 0
      invariant desc.Terminated() && desc.chars == old(desc.chars)
      invariant Normal(desc.Contents()) == Normal(s) && suppress >= 0
      invariant suppress == 0 ==> Irreducible(desc.Contents())
      decreases suppress > 0, desc.size
    {
      var str := desc.Contents();
      var pattern, pp;
      suppress, pattern, pp := FindRedex(str);
      if suppress > 0 {
        StepKeepsNormal(str, pattern, pp);
        desc.Clear(suppress, pp);
      }
    }
    IrreducibleIsNormal(desc.Contents());
  }
}
