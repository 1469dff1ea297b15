/** The environment of the debugged program: strings packed one behind the other in a fixed arena,
    with a NULL-terminated vector of pointers into it. */
module Environment {
  import opened CStrings
  import opened Strl

  const ENV_ENTRIES: nat := 200
  const ENVS_SIZE: nat := 16384
  /** Pointers are offsets into the arena; this one is the null pointer. */
  const NULL: int := -1

  /** Where entry `i` starts when the entries are packed, each behind the terminator of the last. */
  function Offset(entries: seq<string>, i: nat): nat
    requires i <= |entries|
  {
    if i == 0 then 0 else Offset(entries, i - 1) + |entries[i - 1]| + 1
  }

  function Used(entries: seq<string>): nat {
    Offset(entries, |entries|)
  }

  /** Whether one more entry is accepted. */
  predicate Fits(entries: seq<string>, entry: string) {
    |entries| < ENV_ENTRIES - 2 && Used(entries) + 1 + |entry| < ENVS_SIZE
  }

  /** The entries one behind the other, each with its terminator. */
  function Packed(entries: seq<string>): seq<char> {
    if entries == [] then [] else entries[0] + [NUL] + Packed(entries[1..])
  }

  lemma {:induction false} PackedSnoc(entries: seq<string>, entry: string)
    ensures Packed(entries + [entry]) == Packed(entries) + entry + [NUL]
  {
    if entries == [] {
      assert [entry][1..] == [];
    } else {
      assert (entries + [entry])[1..] == entries[1..] + [entry];
      PackedSnoc(entries[1..], entry);
    }
  }

  /** The entries, packed, fill exactly the used part of the arena. */
  lemma {:induction false} PackedFills(entries: seq<string>, arena: seq<char>)
    ensures |Packed(entries)| == Used(entries)
    ensures (forall i :: 0 <= i < |entries| ==> Stored(arena, entries, i)) ==> Packed(entries) <= arena
  {
    if entries != [] {
      var n := |entries| - 1;
      var before, last := entries[..n], entries[n];
      assert entries == before + [last];
      PackedSnoc(before, last);
      PackedFills(before, arena);
      OffsetPrefix(before, [last], n);
      if forall i :: 0 <= i < |entries| ==> Stored(arena, entries, i) {
        forall i | 0 <= i < n
          ensures Stored(arena, before, i)
        {
          OffsetPrefix(before, [last], i);
          assert Stored(arena, entries, i);
        }
        assert Stored(arena, entries, n);
        var at := Used(before);
        assert arena[..at + |last| + 1] == arena[..at] + arena[at..at + |last|] + [arena[at + |last|]];
      }
    }
  }

  datatype Op = Add(entry: string) | Unset

  function Apply(entries: seq<string>, op: Op): seq<string> {
    match op
    case Add(entry) => if Fits(entries, entry) then entries + [entry] else entries
    case Unset => []
  }

  function ApplyAll(ops: seq<Op>): seq<string> {
    if ops == [] then [] else Apply(ApplyAll(ops[..|ops| - 1]), ops[|ops| - 1])
  }

  lemma {:induction false} OffsetPrefix(entries: seq<string>, more: seq<string>, i: nat)
    requires i <= |entries|
    ensures Offset(entries + more, i) == Offset(entries, i)
  {
    if i > 0 {
      OffsetPrefix(entries, more, i - 1);
    }
  }

  /** Entries lie in order and apart: each ends, terminator included, before the next one starts. */
  lemma {:induction false} OffsetsApart(entries: seq<string>, i: nat, j: nat)
    requires i < j <= |entries|
    ensures Offset(entries, i) + |entries[i]| + 1 <= Offset(entries, j)
  {
    if i + 1 < j {
      OffsetsApart(entries, i, j - 1);
    }
  }

  /** Entry `i` stands at its place in the arena. */
  ghost predicate Stored(arena: seq<char>, entries: seq<string>, i: nat)
    requires i < |entries|
  {
    var at, entry := Offset(entries, i), entries[i];
    && at + |entry| < |arena| && NUL !in entry
    && arena[at..at + |entry|] == entry && arena[at + |entry|] == NUL
  }

  /** Whatever changes behind the used part, the entries in it stay. */
  lemma EntryKept(before: seq<char>, after: seq<char>, entries: seq<string>, more: seq<string>, i: nat)
    requires i < |entries| && Stored(before, entries, i)
    requires Used(entries) <= |before| == |after| && before[..Used(entries)] == after[..Used(entries)]
    ensures Stored(after, entries + more, i)
  {
    OffsetPrefix(entries, more, i);
    OffsetsApart(entries, i, |entries|);
    var at, n, e := Offset(entries, i), Used(entries), entries[i];
    assert after[..n][at..at + |e|] == after[at..at + |e|];
    assert before[..n][at..at + |e|] == before[at..at + |e|];
    assert after[..n][at + |e|] == before[..n][at + |e|];
  }

  lemma NewEntry(arena: seq<char>, entries: seq<string>, entry: string)
    requires NUL !in entry && Used(entries) + |entry| < |arena|
    requires arena[Used(entries)..Used(entries) + |entry|] == entry && arena[Used(entries) + |entry|] == NUL
    ensures var all, n := entries + [entry], |entries|;
            Stored(arena, all, n) && Offset(all, n) == Used(entries) && Used(all) == Used(entries) + |entry| + 1
  {
    OffsetPrefix(entries, [entry], |entries|);
  }

  class Env {
    const envs: array<char>
    const envp: array<int>
    var envpentries: nat
    var envspointer: nat
    ghost var entries: seq<string>

    /** The vector points at the entries, packed into the arena and terminated, and ends with NULL. */
    ghost predicate Valid()
      reads this, envs, envp
    {
      && envs.Length == ENVS_SIZE && envp.Length == ENV_ENTRIES
      && envpentries == |entries| <= ENV_ENTRIES - 2
      && envspointer == Used(entries) < ENVS_SIZE
      && envp[envpentries] == NULL
      && forall i :: 0 <= i < |entries| ==> envp[i] == Offset(entries, i) && Stored(envs[..], entries, i)
    }

    constructor ()
      ensures Valid() && entries == [] && fresh(envs) && fresh(envp)
    {
      envs := new char[ENVS_SIZE];
      envp := new int[ENV_ENTRIES](_ => NULL);
      envpentries, envspointer := 0, 0;
      entries := [];
    }

    /** What the program sees in `envp[i]`. */
    method Get(i: nat) returns (entry: string)
      requires Valid() && i < envpentries
      ensures entry == entries[i]
    {
      ghost var e := entries[i];
      var at := envp[i];
      OffsetsApart(entries, i, |entries|);
      assert envs[at..][..|e|] == envs[at..at + |e|];
      CStrIs(envs[at..], |e|);
      entry := CStr(envs[at..]);
    }

    /** Adds an entry if pointer vector and arena have room; a rejected entry changes nothing. */
    method AddEnvironment(entry: string) returns (ok: bool)
      requires Valid() && NUL !in entry
      modifies this, envs, envp
      ensures Valid() && (ok <==> Fits(old(entries), entry))
      ensures entries == Apply(old(entries), Op.Add(entry))
      ensures !ok ==> envs[..] == old(envs[..]) && envp[..] == old(envp[..])
    {
      var size := |entry|;
      if envpentries >= ENV_ENTRIES - 2 {
        return false;
      }
      if envspointer + 1 + size >= ENVS_SIZE {
        return false;
      }
      Store(entry);
      return true;
    }

    /** The accepted entry: pointer, terminator of the vector, characters. */
    method Store(entry: string)
      requires Valid() && NUL !in entry && Fits(entries, entry)
      modifies this, envs, envp
      ensures Valid() && entries == old(entries) + [entry]
    {
      hide Stored, Offset;
      ghost var was, before := entries, envs[..];
      envp[envpentries] := envspointer;
      envpentries := envpentries + 1;
      envp[envpentries] := NULL;
      StrCpy(envs, envspointer, entry);
      NewEntry(envs[..], was, entry);
      envspointer := envspointer + |entry| + 1;
      entries := entries + [entry];
      assert envs[..][..Used(was)] == before[..Used(was)];
      forall i | 0 <= i < |was|
        ensures envp[i] == Offset(entries, i) && Stored(envs[..], entries, i)
      {
        OffsetPrefix(was, [entry], i);
        EntryKept(before, envs[..], was, [entry], i);
      }
    }

    /** "unset env". */
    method UnsetEnv()
      requires Valid()
      modifies this, envp
      ensures Valid() && entries == Apply(old(entries), Unset)
    {
      envp[0] := NULL;
      envpentries := 0;
      envspointer := 0;
      entries := [];
    }
  }

  // ---------- whole runs ----------

  function Adds(entries: seq<string>): seq<Op> {
    seq(|entries|, i requires 0 <= i < |entries| => Add(entries[i]))
  }

  /** A list of entries is taken over completely exactly when there are at most `ENV_ENTRIES - 2` of
      them and, packed, they leave a byte of the arena free. */
  lemma {:induction false} AllAccepted(entries: seq<string>)
    ensures ApplyAll(Adds(entries)) == entries <==>
              |entries| <= ENV_ENTRIES - 2 && |Packed(entries)| < ENVS_SIZE
    ensures |ApplyAll(Adds(entries))| <= |entries|
  {
    PackedFills(entries, []);
    if entries != [] {
      var n := |entries| - 1;
      var before, last := entries[..n], entries[n];
      assert Adds(entries)[..n] == Adds(before);
      AllAccepted(before);
      PackedFills(before, []);
      assert entries == before + [last];
      OffsetPrefix(before, [last], n);
      var r := ApplyAll(Adds(before));
      assert ApplyAll(Adds(entries)) == Apply(r, Add(last));
      if Apply(r, Add(last)) == entries {
        assert |r| == n && (r + [last])[..n] == r;
      }
    }
  }

  /** After any run of additions and resets the entries fit the arena, packed. */
  lemma {:induction false} AlwaysFits(ops: seq<Op>)
    ensures |ApplyAll(ops)| <= ENV_ENTRIES - 2 && |Packed(ApplyAll(ops))| < ENVS_SIZE
  {
    PackedFills(ApplyAll(ops), []);
    if ops != [] {
      AlwaysFits(ops[..|ops| - 1]);
      var before := ApplyAll(ops[..|ops| - 1]);
      PackedFills(before, []);
      if ops[|ops| - 1].Add? {
        OffsetPrefix(before, [ops[|ops| - 1].entry], |before|);
      }
    }
  }
}
