/** The edited line as a text zipper: what is left of the cursor and what is right of it. */
module Zippers {

  datatype Zipper = Zipper(left: string, right: string) {
    function Text(): (t: string)
      ensures |t| == Length()
    {
      left + right
    }

    function Length(): nat { |left| + |right| }

    function Insert(c: char): Zipper { Zipper(left + [c], right) }

    function Backspace(): (r: Zipper)
      ensures r.Length() <= Length()
    {
      if left == "" then this else Zipper(left[..|left| - 1], right)
    }

    function Delete(): (r: Zipper)
      ensures r.Length() <= Length()
    {
      if right == "" then this else Zipper(left, right[1..])
    }

    function MoveLeft(): (r: Zipper)
      ensures r.Length() <= Length()
    {
      if left == "" then this else Zipper(left[..|left| - 1], [left[|left| - 1]] + right)
    }

    function MoveRight(): (r: Zipper)
      ensures r.Length() <= Length()
    {
      if right == "" then this else Zipper(left + [right[0]], right[1..])
    }

    function Home(): (r: Zipper)
      ensures r.Length() <= Length()
    {
      Zipper("", Text())
    }

    function End(): (r: Zipper)
      ensures r.Length() <= Length()
    {
      Zipper(Text(), "")
    }

    function KillToEnd(): (r: Zipper)
      ensures r.Length() <= Length()
    {
      Zipper(left, "")
    }

    /** The characters on both sides of the cursor change places; the cursor moves right unless it
        stood before the last character. */
    function Transpose(): (r: Zipper)
      ensures r.Length() <= Length()
    {
      if left == "" || right == "" then this
      else
        var init, a, b := left[..|left| - 1], left[|left| - 1], right[0];
        if |right| == 1 then Zipper(init + [b], [a]) else Zipper(init + [b, a], right[1..])
    }

    function DeletePrevWord(): (r: Zipper)
      ensures r.Length() <= Length()
    {
      Zipper(DropTail(DropTail(left, true), false), right)
    }
  }

  /** `s` without its longest tail of spaces, or of non-spaces. */
  function DropTail(s: string, spaces: bool): (r: string)
    ensures r <= s
  {
    if s != "" && (s[|s| - 1] == ' ') == spaces then DropTail(s[..|s| - 1], spaces) else s
  }

  /** `s` is `rest`, a word, and a gap: what deleting the previous word takes apart. */
  ghost predicate LastWord(s: string, rest: string, word: string, gap: string) {
    && s == rest + word + gap
    && (forall i :: 0 <= i < |gap| ==> gap[i] == ' ')
    && ' ' !in word
    && (rest != "" ==> word != "" && rest[|rest| - 1] == ' ')
  }

  /** The tail of `s` from `n` on is all spaces (or all non-spaces), and no longer tail is. */
  ghost predicate LongestTail(s: string, n: nat, spaces: bool) {
    && n <= |s|
    && (forall i :: n <= i < |s| ==> (s[i] == ' ') == spaces)
    && (n > 0 ==> (s[n - 1] == ' ') != spaces)
  }

  lemma LongestTailUnique(s: string, m: nat, n: nat, spaces: bool)
    requires LongestTail(s, m, spaces) && LongestTail(s, n, spaces)
    ensures m == n
  {}

  lemma {:induction false} DropTailDrops(s: string, spaces: bool)
    ensures var r := DropTail(s, spaces);
            r <= s && LongestTail(s, |r|, spaces)
  {
    if s != "" && (s[|s| - 1] == ' ') == spaces {
      DropTailDrops(s[..|s| - 1], spaces);
    }
  }

  /** Deleting the previous word removes exactly the last word and the gap behind it: the rest it
      keeps is the only one there is. */
  lemma PrevWordDeleted(z: Zipper, rest: string)
    ensures z.DeletePrevWord().right == z.right
    ensures z.DeletePrevWord().left == rest <==> exists word, gap :: LastWord(z.left, rest, word, gap)
  {
    var s := z.left;
    var t := DropTail(s, true);
    var r := DropTail(t, false);
    DropTailDrops(s, true);
    DropTailDrops(t, false);
    TailsLastWord(s, t, r);
    hide LongestTail;
    if word, gap :| LastWord(s, rest, word, gap) {
      LastWordTails(s, rest, word, gap);
      LongestTailUnique(s, |t|, |rest + word|, true);
      LongestTailUnique(t, |r|, |rest|, false);
    }
  }

  lemma TailsLastWord(s: string, t: string, r: string)
    requires r <= t <= s && LongestTail(s, |t|, true) && LongestTail(t, |r|, false)
    ensures LastWord(s, r, t[|r|..], s[|t|..])
  {
    assert s == r + t[|r|..] + s[|t|..];
  }

  lemma LastWordTails(s: string, rest: string, word: string, gap: string)
    requires LastWord(s, rest, word, gap)
    ensures rest + word <= s && LongestTail(s, |rest + word|, true) && LongestTail(rest + word, |rest|, false)
  {
    var t := rest + word;
    assert forall i :: |t| <= i < |s| ==> s[i] == gap[i - |t|];
    assert forall i :: |rest| <= i < |t| ==> t[i] == word[i - |rest|];
    assert forall i :: 0 <= i < |rest| ==> t[i] == rest[i];
  }

  /** Every edit is undone by its counterpart, and moving the cursor never changes the text. */
  lemma EditsUndone(z: Zipper, c: char)
    ensures z.Insert(c).Backspace() == z
    ensures z.Insert(c).MoveLeft().Delete() == z
    ensures z.left != "" ==> z.Backspace().Insert(z.left[|z.left| - 1]) == z && z.MoveLeft().MoveRight() == z
    ensures z.right != "" ==> z.MoveRight().MoveLeft() == z && z.MoveRight().Backspace() == z.Delete()
    ensures z.MoveLeft().Text() == z.MoveRight().Text() == z.Home().Text() == z.End().Text() == z.Text()
  {
    if z.left != "" {
      assert z.left == z.left[..|z.left| - 1] + [z.left[|z.left| - 1]];
    }
    if z.right != "" {
      assert z.right == [z.right[0]] + z.right[1..];
      assert z.left + z.right == (z.left + [z.right[0]]) + z.right[1..];
    }
    assert z.MoveLeft().Text() == z.Text();
    assert z.Home().Text() == z.Text() == z.End().Text();
  }

  /** Transposing exchanges the two characters around the cursor and nothing else; the cursor never
      ends up behind the last character. */
  lemma TransposeSwaps(z: Zipper)
    requires z.left != "" && z.right != ""
    ensures var p := |z.left|; var text := z.Text(); var u := z.Transpose();
            && u.Text() == text[p - 1 := text[p]][p := text[p - 1]]
            && |u.left| == if p == |text| - 1 then p else p + 1
  {}
}
