/** The growable string buffer everything on the MI side is built on, proved to be a sequence of
    characters in a NUL-terminated array that always has room for what is written. */
module StringBs {
  import opened CStrings
  import opened Strl

  const BIG_LIMIT: nat := 100000

  /** The capacity after growing: at least doubled, unless the limit is reached. */
  function Grown(capacity: nat, atLeast: nat): (r: nat)
    ensures r == BIG_LIMIT || (r >= 2 * capacity && r >= capacity + atLeast)
    ensures r <= BIG_LIMIT
  {
    var c := capacity + if atLeast > capacity then atLeast else capacity;
    if c > BIG_LIMIT then BIG_LIMIT else c
  }

  class StringB {
    var capacity: nat
    var size: nat
    var chars: array?<char>

    /** Before the first write the array is not yet terminated: `size` is 0 and its first byte
        arbitrary. */
    ghost predicate Valid()
      reads this, chars
    {
      && capacity <= BIG_LIMIT
      && if chars == null then capacity == 0 && size == 0
         else chars.Length == capacity && size < capacity && NUL !in chars[..size] && (size > 0 ==> chars[size] == NUL)
    }

    /** The array holds the contents as a C string. */
    ghost predicate Terminated()
      reads this, chars
    {
      Valid() && chars != null && chars[size] == NUL
    }

    function Contents(): string
      requires Valid()
      reads this, chars
    {
      if chars == null then "" else chars[..size]
    }

    constructor Empty()
      ensures Valid() && Contents() == "" && capacity == 0
    {
      capacity, chars, size := 0, null, 0;
    }

    constructor WithCapacity(maxSize: nat)
      requires 1 <= maxSize <= BIG_LIMIT
      ensures Valid() && Contents() == "" && capacity == maxSize && fresh(chars)
    {
      capacity, size := maxSize, 0;
      chars := new char[maxSize];
    }

    /** realloc keeps what fits; the bytes it adds are arbitrary. */
    method Grow(atLeast: nat)
      requires Valid() && (chars == null ==> atLeast >= 1)
      modifies this
      ensures Valid() && fresh(chars) && chars != null
      ensures size == old(size) && capacity == Grown(old(capacity), atLeast)
      ensures Contents() == old(Contents())
      ensures old(Terminated()) ==> Terminated()
    {
      var was := chars;
      capacity := capacity + if atLeast > capacity then atLeast else capacity;
      if capacity > BIG_LIMIT {
        capacity := BIG_LIMIT;
      }
      chars := new char[capacity];
      if was != null {
        for i := 0 to was.Length
          modifies chars
          invariant forall j :: 0 <= j < i ==> chars[j] == was[j]
        {
          chars[i] := was[i];
        }
        assert chars[..size] == was[..size];
      }
    }

    /** Removes `bytes` characters from `start` on, or all of them if there are fewer. */
    method Clear(bytes: nat, start: nat)
      requires Valid() && bytes >= 1 && start <= size
      modifies this, chars
      ensures Valid() && chars == old(chars) && capacity == old(capacity)
      ensures chars != null ==> Terminated()
      ensures var s := old(Contents());
              Contents() == s[..start] + if start + bytes < |s| then s[start + bytes..] else ""
    {
      if chars == null {
        return;
      }
      ghost var s := Contents();
      if start + bytes >= size {
        chars[start] := NUL;
        size := start;
        assert chars[..size] == s[..start];
      } else {
        ShiftLeft(bytes, start);
      }
    }

    /** The tail moves over the gap, by way of a copy. */
    method ShiftLeft(bytes: nat, start: nat)
      requires Terminated() && bytes >= 1 && start + bytes < size
      modifies this`size, chars
      ensures Terminated() && Contents() == old(Contents())[..start] + old(Contents())[start + bytes..]
    {
      hide CStr;
      ghost var head, tail := Contents()[..start], Contents()[start + bytes..];
      CStrTail(start + bytes);
      var tmp := CStr(chars[start + bytes..]);
      assert chars[..start] == head && tmp == tail;
      StrCpy(chars, start, tmp);
      size := size - bytes;
      assert chars[..size] == head + tail;
    }

    /** The C string that starts at `start`. */
    lemma CStrTail(start: nat)
      requires Terminated() && start <= size
      ensures CStr(chars[start..]) == Contents()[start..]
    {
      var n := size - start;
      assert chars[start..][..n] == Contents()[start..];
      CStrIs(chars[start..], n);
    }

    method Copy(s: string, maxBytes: nat)
      requires Valid() && NUL !in s && |Take(s, maxBytes)| < BIG_LIMIT
      modifies this, chars
      ensures Terminated() && (chars == old(chars) || fresh(chars))
      ensures Contents() == Take(s, maxBytes)
    {
      CopyAt(0, s, maxBytes);
      assert old(Contents())[..0] + Take(s, maxBytes) == Take(s, maxBytes);
    }

    method Append(s: string)
      requires Valid() && NUL !in s && size + |s| < BIG_LIMIT
      modifies this, chars
      ensures Terminated() && (chars == old(chars) || fresh(chars))
      ensures Contents() == old(Contents()) + s
    {
      assert Contents()[..size] == Contents();
      CopyAt(size, s, BIG_LIMIT);
    }

    /** Growing by one is enough unless there was nothing to double, or the limit is reached. */
    method ReserveOne()
      requires Valid()
      modifies this
      ensures Valid() && Contents() == old(Contents()) && (chars == old(chars) || fresh(chars))
      ensures capacity == if size + 1 < old(capacity) then old(capacity) else Grown(old(capacity), 1)
      ensures size + 1 < capacity <==> old(capacity) >= 1 && size + 1 < BIG_LIMIT
    {
      if size + 1 >= capacity {
        Grow(1);
      }
    }

    method AppendChar(c: char)
      requires Valid() && c != NUL && capacity >= 1 && size + 1 < BIG_LIMIT
      modifies this, chars
      ensures Terminated() && (chars == old(chars) || fresh(chars))
      ensures Contents() == old(Contents()) + [c]
    {
      ReserveOne();
      ghost var s := Contents();
      chars[size] := c;
      size := size + 1;
      chars[size] := NUL;
      assert chars[..size] == s + [c];
    }

    /** Makes room for `n` characters at `offset` and the NUL behind them. A grow adds more than they
        need, so they fit exactly if they stay below the limit. */
    method Reserve(offset: nat, n: nat)
      requires Valid() && offset <= size
      modifies this
      ensures Valid() && Contents() == old(Contents()) && (chars == old(chars) || fresh(chars))
      ensures capacity == if offset + n < old(capacity) then old(capacity) else Grown(old(capacity), n + 1)
      ensures offset + n < capacity <==> offset + n < BIG_LIMIT
    {
      if offset + n >= capacity {
        Grow(n + 1);
      }
    }

    /** Copies at `offset` (0 or the end), at most `maxBytes` characters, and terminates. */
    method CopyAt(offset: nat, s: string, maxBytes: nat)
      requires Valid() && NUL !in s && offset <= size && offset + |Take(s, maxBytes)| < BIG_LIMIT
      modifies this, chars
      ensures Terminated() && (chars == old(chars) || fresh(chars))
      ensures Contents() == old(Contents())[..offset] + Take(s, maxBytes)
      ensures capacity == if offset + |Take(s, maxBytes)| < old(capacity) then old(capacity)
                          else Grown(old(capacity), |Take(s, maxBytes)| + 1)
    {
      var n := |s|;
      if maxBytes < n {
        n := maxBytes;
      }
      Reserve(offset, n);
      WriteAt(offset, s, n, maxBytes);
    }

    method WriteAt(offset: nat, s: string, n: nat, maxBytes: nat)
      requires Valid() && NUL !in s && offset <= size && offset + n < capacity && n == |Take(s, maxBytes)|
      modifies this`size, chars
      ensures Terminated() && Contents() == old(Contents())[..offset] + Take(s, maxBytes)
    {
      hide CStr, Take;
      ghost var before := Contents()[..offset];
      assert chars[..offset] == before;
      PutString(chars, offset, s, n, maxBytes);
      size := offset + n;
      assert chars[..size] == before + Take(s, maxBytes);
    }
  }

  /** A string of as many characters as the limit allows bytes: having grown for it, the buffer has no
      room for its NUL. */
  method LongCopyFails() returns (b: StringB)
    ensures fresh(b) && b.Valid() && b.Contents() == ""
    ensures b.capacity == Grown(16, BIG_LIMIT + 1) && !(b.size + BIG_LIMIT < b.capacity)
  {
    b := new StringB.WithCapacity(16);
    b.Reserve(0, BIG_LIMIT);
  }

  /** A buffer never written to: having grown for its first character, it has no room for the NUL. */
  method FirstCharFails() returns (b: StringB)
    ensures fresh(b) && b.Valid() && b.Contents() == ""
    ensures b.capacity == Grown(0, 1) && !(b.size + 1 < b.capacity)
  {
    b := new StringB.Empty();
    b.ReserveOne();
  }

  lemma WithNul(s: string)
    requires NUL !in s
    ensures CStr(s + [NUL]) == s && NUL in s + [NUL]
  {
    CStrIs(s + [NUL], |s|);
  }

  lemma AllTaken(s: string, maxBytes: nat, n: nat)
    requires n == |Take(s, maxBytes)| && n < maxBytes
    ensures Take(s, maxBytes) == s
  {}

  /** strlcpy when the string is to be cut, strcpy otherwise. */
  method PutString(chars: array<char>, offset: nat, s: string, n: nat, maxBytes: nat)
    requires NUL !in s && offset + n < chars.Length && n == |Take(s, maxBytes)|
    modifies chars
    ensures chars[..offset] == old(chars[..offset])
    ensures chars[offset..offset + n] == Take(s, maxBytes) && chars[offset + n] == NUL
  {
    hide CStr, Take;
    if maxBytes <= n {
      WithNul(s);
      var full := StrLCpy(chars, offset, s + [NUL], n + 1);
    } else {
      AllTaken(s, maxBytes, n);
      StrCpy(chars, offset, s);
    }
  }
}
