/** C strings inside character arrays: the characters up to the first NUL. */
module CStrings {

  const NUL: char := 0 as char

  /** The C string an array segment holds (all of it if there is no NUL). */
  function CStr(a: seq<char>): (s: string)
    ensures s <= a && NUL !in s && (|s| < |a| ==> a[|s|] == NUL)
  {
    if a == [] || a[0] == NUL then "" else [a[0]] + CStr(a[1..])
  }

  /** The first NUL ends the string. */
  lemma {:induction false} CStrIs(a: seq<char>, n: nat)
    requires n < |a| && a[n] == NUL && NUL !in a[..n]
    ensures CStr(a) == a[..n]
  {
    if n > 0 {
      assert a[1..][..n - 1] == a[..n][1..];
      assert a[0] == a[..n][0];
      CStrIs(a[1..], n - 1);
    }
  }

  function Take<T>(s: seq<T>, n: nat): (r: seq<T>)
    ensures |r| == if |s| <= n then |s| else n
    ensures r <= s
  {
    if |s| <= n then s else s[..n]
  }
}
