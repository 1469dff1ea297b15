/** Searching a string for a pattern, as strstr does. */
module StrSearch {

  predicate OccursAt(s: string, p: string, i: nat) {
    i + |p| <= |s| && s[i..i + |p|] == p
  }

  ghost predicate Occurs(s: string, p: string) {
    exists i: nat :: OccursAt(s, p, i)
  }

  /** `i` is the first occurrence of `p`, or -1 if there is none. */
  ghost predicate FirstAt(s: string, p: string, i: int) {
    if i < 0 then i == -1 && !Occurs(s, p)
    else OccursAt(s, p, i) && forall j: nat :: j < i ==> !OccursAt(s, p, j)
  }

  method StrStr(s: string, p: string) returns (i: int)
    ensures FirstAt(s, p, i)
  {
    i := 0;
    while i + |p| <= |s|
      invariant 0 <= i && forall j: nat :: j < i ==> !OccursAt(s, p, j)
    {
      if s[i..i + |p|] == p {
        return i;
      }
      i := i + 1;
    }
    return -1;
  }
}
