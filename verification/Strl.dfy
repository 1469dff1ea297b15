/** strlcpy and strlcat: bounded copies into a character array, and the rejoining of command
    arguments that is built on them. A source string is a memory segment that contains a NUL. */
module Strl {
  import opened CStrings

  /** strcpy and strlen of a C string given as a value. */
  method StrCpy(dst: array<char>, at: nat, s: string)
    requires at + |s| < dst.Length
    modifies dst
    ensures dst[..at] == old(dst[..at]) && dst[at..at + |s|] == s && dst[at + |s|] == NUL
    ensures dst[at + |s| + 1..] == old(dst[at + |s| + 1..])
  {
    for i := 0 to |s|
      invariant dst[..at] == old(dst[..at]) && dst[at..at + i] == s[..i]
      invariant dst[at + i..] == old(dst[at + i..])
    {
      dst[at + i] := s[i];
    }
    dst[at + |s|] := NUL;
  }

  /** Copies at most `dsize - 1` characters and always terminates them (unless `dsize` is 0); the
      result is the length of the whole source. */
  method StrLCpy(dst: array<char>, at: nat, src: seq<char>, dsize: nat) returns (n: nat)
    requires NUL in src && at + dsize <= dst.Length
    modifies dst
    ensures n == |CStr(src)|
    ensures dsize == 0 ==> dst[..] == old(dst[..])
    ensures dsize > 0 ==>
              var t := Take(CStr(src), dsize - 1);
              && dst[..at] == old(dst[..at]) && dst[at..at + |t|] == t
              && dst[at + |t|] == NUL && dst[at + |t| + 1..] == old(dst[at + |t| + 1..])
  {
    hide CStr;
    ghost var s := CStr(src);
    assert |s| < |src| by { CStrInside(src); }
    var nleft: nat, i := dsize, 0;
    if nleft != 0 {
      nleft := nleft - 1;
      while nleft != 0
        invariant nleft + i == dsize - 1 && i <= |s|
        invariant dst[..at] == old(dst[..at]) && dst[at..at + i] == s[..i] && dst[at + i..] == old(dst[at + i..])
      {
        dst[at + i] := src[i];
        i := i + 1;
        if src[i - 1] == NUL {
          assert s[..i - 1] == s && dst[at..at + i - 1] == s;
          return i - 1;
        }
        nleft := nleft - 1;
      }
    }
    if dsize != 0 {
      dst[at + i] := NUL;
    }
    while src[i] != NUL
      invariant i <= |s|
      decreases |s| - i
    {
      i := i + 1;
    }
    return i;
  }

  lemma {:induction false} CStrInside(a: seq<char>)
    requires NUL in a
    ensures |CStr(a)| < |a|
  {
    if a[0] != NUL {
      assert NUL in a[1..];
      CStrInside(a[1..]);
    }
  }

  /** Appends to the string in `dst[..siz]`, keeping at most `siz - 1` characters in all. A `dst`
      already full (no NUL among its first `siz` bytes) is left alone. */
  method StrLCat(dst: array<char>, src: seq<char>, siz: nat) returns (n: nat)
    requires NUL in src && siz <= dst.Length
    modifies dst
    ensures var d, s := CStr(old(dst[..siz])), CStr(src);
            && n == |d| + |s|
            && (|d| == siz ==> dst[..] == old(dst[..]))
            && (|d| < siz ==> var r := Take(d + s, siz - 1);
                  dst[..|r|] == r && dst[|r|] == NUL && dst[|r| + 1..] == old(dst[|r| + 1..]))
  {
    ghost var d, s := CStr(dst[..siz]), CStr(src);
    CStrInside(src);
    var dlen := 0;
    while dlen < siz && dst[dlen] != NUL
      invariant dlen <= |d|
    {
      assert dst[..siz][dlen] == dst[dlen];
      dlen := dlen + 1;
    }
    assert dlen == |d|;
    if dlen == siz {
      n := 0;
      while src[n] != NUL
        invariant n <= |s|
        decreases |s| - n
      {
        n := n + 1;
      }
      return dlen + n;
    }
    assert dst[..dlen] == d;
    n := AppendFrom(dst, dlen, src, siz - dlen);
    ghost var r := Take(d + s, siz - 1);
    assert r == d + Take(s, siz - dlen - 1);
    assert dst[..|r|] == dst[..dlen] + dst[dlen..|r|];
    return dlen + n;
  }

  /** The copying loop of strlcat: at most `n - 1` characters, then a NUL. */
  method AppendFrom(dst: array<char>, from: nat, src: seq<char>, n: nat) returns (len: nat)
    requires NUL in src && n >= 1 && from + n <= dst.Length
    modifies dst
    ensures len == |CStr(src)|
    ensures var t := Take(CStr(src), n - 1);
            && dst[..from] == old(dst[..from]) && dst[from..from + |t|] == t
            && dst[from + |t|] == NUL && dst[from + |t| + 1..] == old(dst[from + |t| + 1..])
  {
    hide CStr;
    ghost var s := CStr(src);
    CStrInside(src);
    ghost var was := dst[..];
    var left, at := n, from;
    len := 0;
    while src[len] != NUL
      invariant len <= |s| && at + left == from + n && left >= 1
      invariant at == from + if len < n - 1 then len else n - 1
      invariant forall i :: from <= i < at ==> dst[i] == s[i - from]
      invariant forall i :: 0 <= i < from || at <= i < dst.Length ==> dst[i] == was[i]
      decreases |s| - len
    {
      if left != 1 {
        dst[at] := src[len];
        at := at + 1;
        left := left - 1;
      }
      len := len + 1;
    }
    dst[at] := NUL;
    assert dst[..from] == was[..from];
    assert dst[from..at] == Take(s, n - 1);
    assert dst[at + 1..] == was[at + 1..];
  }

  // ---------- rejoining the arguments of -var-create ----------

  const NAME_MAX: nat := 255

  function Join(args: seq<string>): string {
    if args == [] then "" else if |args| == 1 then args[0] else Join(args[..|args| - 1]) + " " + args[|args| - 1]
  }

  /** Truncating at every step is truncating once at the end. */
  lemma TakeAppend(a: string, b: string, n: nat)
    ensures Take(Take(a, n) + b, n) == Take(a + b, n)
  {}

  lemma JoinSnoc(args: seq<string>, i: nat)
    requires i < |args|
    ensures Join(args[..i + 1]) == Join(args[..i]) + (if i == 0 then "" else " ") + args[i]
  {
    assert args[..i + 1][..i] == args[..i];
    if i == 0 {
      assert "" + "" + args[0] == args[0];
    }
  }

  /** The argument loop: what `expression` holds is the start of the joined arguments. */
  method Rejoin(args: seq<string>, expression: array<char>)
    requires expression.Length == NAME_MAX && forall i :: 0 <= i < |args| ==> NUL !in args[i]
    modifies expression
    ensures CStr(expression[..]) == Take(Join(args), NAME_MAX - 1)
  {
    var sep := "";
    expression[0] := NUL;
    CStrIs(expression[..], 0);
    var i := 0;
    assert args[..0] == [] && Join([]) == "";
    hide Join, CStr, Take;
    while i < |args|
      invariant i <= |args| && sep == if i == 0 then "" else " "
      invariant CStr(expression[..]) == Take(Join(args[..i]), NAME_MAX - 1)
    {
      AppendBoth(expression, sep, args[i], Join(args[..i]));
      JoinSnoc(args, i);
      sep := " ";
      i := i + 1;
    }
    assert args[..i] == args;
  }

  method AppendBoth(dst: array<char>, sep: string, arg: string, ghost joined: string)
    requires NUL !in sep && NUL !in arg && dst.Length >= 1 && CStr(dst[..]) == Take(joined, dst.Length - 1)
    modifies dst
    ensures CStr(dst[..]) == Take(joined + sep + arg, dst.Length - 1)
  {
    hide CStr;
    Append(dst, sep);
    TakeAppend(joined, sep, dst.Length - 1);
    Append(dst, arg);
    TakeAppend(joined + sep, arg, dst.Length - 1);
  }

  method Append(dst: array<char>, s: string)
    requires NUL !in s && |CStr(dst[..])| < dst.Length
    modifies dst
    ensures CStr(dst[..]) == Take(old(CStr(dst[..])) + s, dst.Length - 1)
  {
    CStrIs(s + [NUL], |s|);
    assert dst[..dst.Length] == dst[..];
    ghost var r := Take(CStr(dst[..]) + s, dst.Length - 1);
    var n := StrLCat(dst, s + [NUL], dst.Length);
    CStrIs(dst[..], |r|);
  }
}
