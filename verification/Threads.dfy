/** The thread-life table: a fixed number of slots, kept in step with the live threads and with the
    created and exited notifications sent to the front end. */
module Threads {
  import opened CStrings

  const THREADS_MAX: nat := 50

  datatype Event = Created(id: int) | Exited(id: int)

  datatype Thread = Thread(valid: bool, id: int)

  // ---------- one call, as a function on the slots ----------

  /** The ids of the valid threads, in the order the process lists them. */
  function LiveIds(threads: seq<Thread>): seq<int> {
    if threads == [] then []
    else
      var t := threads[|threads| - 1];
      LiveIds(threads[..|threads| - 1]) + if t.valid then [t.id] else []
  }

  function IndexOf(slots: seq<int>, id: int): (i: nat)
    ensures i <= |slots| && (forall j :: 0 <= j < i ==> slots[j] != id) && (i < |slots| ==> slots[i] == id)
  {
    if slots == [] || slots[0] == id then 0 else 1 + IndexOf(slots[1..], id)
  }

  /** A new id takes the first free slot, if there is one. */
  function Place(slots: seq<int>, id: int): (r: seq<int>)
    ensures |r| == |slots|
  {
    if id in slots || 0 !in slots then slots else slots[IndexOf(slots, 0) := id]
  }

  function PlaceAll(slots: seq<int>, ids: seq<int>): (r: seq<int>)
    ensures |r| == |slots|
  {
    if ids == [] then slots else Place(PlaceAll(slots, ids[..|ids| - 1]), ids[|ids| - 1])
  }

  /** The notifications sent while placing. */
  function Creations(slots: seq<int>, ids: seq<int>): seq<Event> {
    if ids == [] then []
    else
      var before, id := ids[..|ids| - 1], ids[|ids| - 1];
      var now := PlaceAll(slots, before);
      Creations(slots, before) + if id in now || 0 !in now then [] else [Created(id)]
  }

  /** Slots whose id is not alive are freed. */
  function Sweep(slots: seq<int>, ids: seq<int>): (r: seq<int>)
    ensures |r| == |slots|
  {
    seq(|slots|, i requires 0 <= i < |slots| => if slots[i] in ids then slots[i] else 0)
  }

  /** The notifications sent while sweeping, in slot order. */
  function Exits(slots: seq<int>, ids: seq<int>): seq<Event> {
    if slots == [] then []
    else
      var id := slots[|slots| - 1];
      Exits(slots[..|slots| - 1], ids) + if id > 0 && id !in ids then [Exited(id)] else []
  }

  datatype State = State(slots: seq<int>, log: seq<Event>)

  function Check(s: State, ids: seq<int>): State {
    var placed := PlaceAll(s.slots, ids);
    State(Sweep(placed, ids), s.log + Creations(s.slots, ids) + Exits(placed, ids))
  }

  // ---------- the table ----------

  class ThreadTable {
    const threadids: array<int>
    var log: seq<Event>

    function Current(): State
      reads this, threadids
    {
      State(threadids[..], log)
    }

    constructor ()
      ensures threadids.Length == THREADS_MAX && fresh(threadids) && Current() == Empty()
    {
      threadids := new int[THREADS_MAX](_ => 0);
      log := [];
      new;
      assert threadids[..] == Empty().slots;
    }

    /** Updates the table from the process's threads and notifies what changed. */
    method CheckThreadsLife(processValid: bool, threads: seq<Thread>)
      requires threadids.Length == THREADS_MAX && WellFormed(threadids[..])
      requires forall i :: 0 <= i < |threads| && threads[i].valid ==> threads[i].id > 0
      modifies this, threadids
      ensures Current() == if processValid then Check(old(Current()), LiveIds(threads)) else old(Current())
    {
      if !processValid {
        return;
      }
      hide PlaceAll, Creations, LiveIds, Place, IndexOf, WellFormed;
      ghost var s, sent := threadids[..], log;
      ghost var ids := [];
      var stillalive := new bool[THREADS_MAX](_ => false);
      NoneYet(s, threads);
      for t := 0 to |threads|
        invariant ids == LiveIds(threads[..t]) && 0 !in ids
        invariant threadids[..] == PlaceAll(s, ids) && log == sent + Creations(s, ids) && WellFormed(threadids[..])
        invariant Marked(stillalive, ids)
      {
        OneMore(threads, t);
        ids := OneThread(threads[t], stillalive, s, sent, ids);
      }
      assert threads[..|threads|] == threads;
      FreeDead(stillalive, ids);
    }

    method OneThread(thread: Thread, stillalive: array<bool>, ghost s: seq<int>, ghost sent: seq<Event>,
                     ghost ids: seq<int>)
      returns (ghost ids': seq<int>)
      requires (thread.valid ==> thread.id > 0) && 0 !in ids && Marked(stillalive, ids)
      requires threadids[..] == PlaceAll(s, ids) && log == sent + Creations(s, ids) && WellFormed(threadids[..])
      modifies this, threadids, stillalive
      ensures ids' == ids + (if thread.valid then [thread.id] else []) && 0 !in ids' && Marked(stillalive, ids')
      ensures threadids[..] == PlaceAll(s, ids') && log == sent + Creations(s, ids') && WellFormed(threadids[..])
    {
      hide PlaceAll, Creations, Place, WellFormed;
      ids' := ids;
      if thread.valid {
        PlacedMore(s, ids, thread.id);
        ids' := ids + [thread.id];
        ghost var was := Creations(s, ids);
        ghost var more := Creations(s, ids')[|was|..];
        assert Creations(s, ids') == was + more && sent + (was + more) == sent + was + more;
        MarkOrPlace(thread.id, stillalive, ids);
      }
    }

    /** The slots marked alive are those whose id is among `ids`. */
    ghost predicate Marked(stillalive: array<bool>, ids: seq<int>)
      reads threadids, stillalive
    {
      && threadids.Length == stillalive.Length == THREADS_MAX
      && forall i :: 0 <= i < THREADS_MAX ==> (stillalive[i] <==> threadids[i] != 0 && threadids[i] in ids)
    }

    /** One live thread: its slot is marked alive, or the first free slot becomes its slot. */
    method MarkOrPlace(id: int, stillalive: array<bool>, ghost ids: seq<int>)
      requires id > 0 && Marked(stillalive, ids) && WellFormed(threadids[..])
      modifies this, threadids, stillalive
      ensures threadids[..] == Place(old(threadids[..]), id) && WellFormed(threadids[..])
      ensures log == old(log) + if id in old(threadids[..]) || 0 !in old(threadids[..]) then [] else [Created(id)]
      ensures Marked(stillalive, ids + [id])
    {
      ghost var s := threadids[..];
      var index := Find(id);
      if index < THREADS_MAX {
        stillalive[index] := true;
      } else {
        index := Find(0);
        if index < THREADS_MAX {
          threadids[index] := id;
          stillalive[index] := true;
          log := log + [Created(id)];
          assert threadids[..] == s[index := id];
        }
      }
    }

    method Find(id: int) returns (index: nat)
      requires threadids.Length == THREADS_MAX
      ensures index == IndexOf(threadids[..], id)
      ensures index < THREADS_MAX <==> id in threadids[..]
    {
      index := 0;
      while index < THREADS_MAX
        invariant index <= THREADS_MAX && forall j :: 0 <= j < index ==> threadids[j] != id
      {
        if threadids[index] == id {
          IndexOfIs(threadids[..], id, index);
          return;
        }
        index := index + 1;
      }
      IndexOfIs(threadids[..], id, index);
    }

    /** Frees the slots not marked alive. */
    method FreeDead(stillalive: array<bool>, ghost ids: seq<int>)
      requires Marked(stillalive, ids) && WellFormed(threadids[..]) && 0 !in ids
      modifies this, threadids
      ensures threadids[..] == Sweep(old(threadids[..]), ids)
      ensures log == old(log) + Exits(old(threadids[..]), ids)
    {
      ghost var s, sent := threadids[..], log;
      for i := 0 to THREADS_MAX
        invariant forall j :: 0 <= j < i ==> threadids[j] == Sweep(s, ids)[j]
        invariant forall j :: i <= j < THREADS_MAX ==> threadids[j] == s[j]
        invariant log == sent + Exits(s[..i], ids)
      {
        assert s[..i + 1][..i] == s[..i];
        if threadids[i] > 0 && !stillalive[i] {
          log := log + [Exited(threadids[i])];
          threadids[i] := 0;
        }
      }
      assert s[..THREADS_MAX] == s;
    }
  }

  lemma NoneYet(slots: seq<int>, threads: seq<Thread>)
    ensures LiveIds(threads[..0]) == [] && PlaceAll(slots, []) == slots && Creations(slots, []) == []
  {}

  lemma OneMore(threads: seq<Thread>, t: nat)
    requires t < |threads|
    ensures LiveIds(threads[..t + 1]) == LiveIds(threads[..t]) + if threads[t].valid then [threads[t].id] else []
  {
    assert threads[..t + 1][..t] == threads[..t];
  }

  lemma PlacedMore(slots: seq<int>, ids: seq<int>, id: int)
    ensures PlaceAll(slots, ids + [id]) == Place(PlaceAll(slots, ids), id)
    ensures Creations(slots, ids + [id]) == Creations(slots, ids)
              + if id in PlaceAll(slots, ids) || 0 !in PlaceAll(slots, ids) then [] else [Created(id)]
  {
    assert (ids + [id])[..|ids|] == ids;
  }

  lemma {:induction false} IndexOfIs(slots: seq<int>, id: int, i: nat)
    requires i <= |slots| && (forall j :: 0 <= j < i ==> slots[j] != id) && (i < |slots| ==> slots[i] == id)
    ensures IndexOf(slots, id) == i
  {
    if i > 0 {
      IndexOfIs(slots[1..], id, i - 1);
    }
  }

  /** The ids of the valid threads and no others, in the order of the process. */
  lemma LiveIdsAre(threads: seq<Thread>, more: seq<Thread>)
    ensures forall id :: id in LiveIds(threads) <==> Thread(true, id) in threads
    ensures LiveIds(threads + more) == LiveIds(threads) + LiveIds(more)
  {
    LiveMembers(threads);
    LiveAppend(threads, more);
  }

  lemma {:induction false} LiveMembers(threads: seq<Thread>)
    ensures forall id :: id in LiveIds(threads) <==> Thread(true, id) in threads
  {
    if threads != [] {
      var before, t := threads[..|threads| - 1], threads[|threads| - 1];
      assert threads == before + [t];
      LiveMembers(before);
      forall id
        ensures id in LiveIds(threads) <==> Thread(true, id) in threads
      {
        assert Thread(true, id) in threads <==> Thread(true, id) in before || Thread(true, id) == t;
      }
    }
  }

  lemma {:induction false} LiveAppend(threads: seq<Thread>, more: seq<Thread>)
    ensures LiveIds(threads + more) == LiveIds(threads) + LiveIds(more)
  {
    if more == [] {
      assert threads + more == threads;
    } else {
      var n := |more| - 1;
      assert (threads + more)[..|threads| + n] == threads + more[..n];
      LiveAppend(threads, more[..n]);
    }
  }

  // ---------- what the table means ----------

  function Empty(): State {
    State(seq(THREADS_MAX, _ => 0), [])
  }

  /** Slots hold non-negative ids, and no id twice. */
  ghost predicate WellFormed(slots: seq<int>) {
    && (forall i :: 0 <= i < |slots| ==> slots[i] >= 0)
    && (forall i, j :: 0 <= i < j < |slots| && slots[i] != 0 ==> slots[i] != slots[j])
  }

  function Ids(slots: seq<int>): set<int> {
    set id | id in slots && id != 0
  }

  lemma IdsSnoc(slots: seq<int>, id: int)
    ensures Ids(slots + [id]) == if id == 0 then Ids(slots) else Ids(slots) + {id}
  {
    assert forall x :: x in slots + [id] <==> x in slots || x == id;
  }

  /** Ids that occur once each are as many as the slots they fill. */
  lemma {:induction false} CountIds(slots: seq<int>)
    requires WellFormed(slots)
    ensures |Ids(slots)| <= |slots| && (|Ids(slots)| == |slots| <==> 0 !in slots)
  {
    if slots != [] {
      var n := |slots| - 1;
      var init, last := slots[..n], slots[n];
      assert slots == init + [last];
      InitWellFormed(slots);
      CountIds(init);
      IdsSnoc(init, last);
      hide WellFormed, Ids;
      assert 0 in slots <==> 0 in init || last == 0;
    }
  }

  lemma InitWellFormed(slots: seq<int>)
    requires WellFormed(slots) && slots != []
    ensures var n := |slots| - 1; WellFormed(slots[..n]) && (slots[n] != 0 ==> slots[n] !in Ids(slots[..n]))
  {
    assert forall j :: 0 <= j < |slots| - 1 ==> slots[..|slots| - 1][j] == slots[j];
  }

  lemma PlaceIds(slots: seq<int>, id: int)
    requires WellFormed(slots) && id > 0
    ensures var r := Place(slots, id);
            && WellFormed(r)
            && Ids(r) == if id in slots || 0 !in slots then Ids(slots) else Ids(slots) + {id}
  {
    var r := Place(slots, id);
    if r != slots {
      var i := IndexOf(slots, 0);
      assert r[i] == id;
      forall x | x in Ids(slots)
        ensures x in r
      {
        var j :| 0 <= j < |slots| && slots[j] == x;
        assert r[j] == x;
      }
    }
  }

  function ToSet(ids: seq<int>): set<int> {
    set id | id in ids
  }

  predicate Positive(ids: seq<int>) {
    forall i :: 0 <= i < |ids| ==> ids[i] > 0
  }

  /** Placing keeps every id in the table, adds only live ones, and places all of them exactly when
      old and live ids together fit. */
  lemma {:induction false} PlaceAllIds(slots: seq<int>, ids: seq<int>)
    requires WellFormed(slots) && Positive(ids)
    ensures var r, all := PlaceAll(slots, ids), Ids(slots) + ToSet(ids);
            && WellFormed(r) && Ids(slots) <= Ids(r) <= all
            && (Ids(r) == all <==> |all| <= |slots|)
  {
    hide WellFormed, Ids, ToSet;
    if ids == [] {
      ToSetSnoc([], 0);
      assert Ids(slots) + {} == Ids(slots);
      CountIds(slots);
    } else {
      var before, id := ids[..|ids| - 1], ids[|ids| - 1];
      assert ids == before + [id];
      ToSetSnoc(before, id);
      PlaceAllIds(slots, before);
      PlaceOneMore(PlaceAll(slots, before), id, Ids(slots) + ToSet(before));
      assert Ids(slots) + ToSet(ids) == Ids(slots) + ToSet(before) + {id};
    }
  }

  lemma ToSetSnoc(ids: seq<int>, id: int)
    ensures ToSet([]) == {} && ToSet(ids + [id]) == ToSet(ids) + {id}
  {
    assert forall x :: x in ids + [id] <==> x in ids || x == id;
  }

  lemma PlaceOneMore(now: seq<int>, id: int, all: set<int>)
    requires WellFormed(now) && id > 0 && Ids(now) <= all && (Ids(now) == all <==> |all| <= |now|)
    ensures var r := Place(now, id);
            && WellFormed(r) && Ids(now) <= Ids(r) <= all + {id}
            && (Ids(r) == all + {id} <==> |all + {id}| <= |now|)
  {
    hide Place, WellFormed;
    var r := Place(now, id);
    PlaceIds(now, id);
    CountIds(now);
    CountIds(r);
    SubsetSize(all, all + {id});
    SubsetSize(Ids(now) + {id}, all + {id});
  }

  lemma SubsetSize(a: set<int>, b: set<int>)
    requires a <= b
    ensures |a| <= |b|
  {
    assert b == a + (b - a);
  }

  lemma SweepIds(slots: seq<int>, ids: seq<int>)
    requires WellFormed(slots) && Positive(ids)
    ensures WellFormed(Sweep(slots, ids)) && Ids(Sweep(slots, ids)) == Ids(slots) * ToSet(ids)
  {
    var r := Sweep(slots, ids);
    forall x | x in Ids(slots) * ToSet(ids)
      ensures x in r
    {
      var j :| 0 <= j < |slots| && slots[j] == x;
      assert r[j] == x;
    }
  }

  /** After a check the table holds live ids only, and it holds all of them exactly when the ids of
      the old table and the live ones together fit: new ids are placed before dead ones are freed. */
  lemma TableIsLive(s: State, ids: seq<int>)
    requires WellFormed(s.slots) && Positive(ids)
    ensures var r := Check(s, ids).slots;
            && WellFormed(r) && Ids(r) <= ToSet(ids)
            && (Ids(r) == ToSet(ids) <==> |Ids(s.slots) + ToSet(ids)| <= |s.slots|)
  {
    PlaceAllIds(s.slots, ids);
    SweepIds(PlaceAll(s.slots, ids), ids);
  }

  /** A full table of threads that all ended, and one new thread: the old ones are freed, but the new
      one found no slot and is not reported. */
  lemma NewThreadMissed()
    ensures var s := State(seq(THREADS_MAX, i => i + 1), []);
            var r := Check(s, [51]);
            WellFormed(s.slots) && Ids(r.slots) == {} && Created(51) !in r.log
  {
    var s := State(seq(THREADS_MAX, i => i + 1), []);
    assert [51][..0] == [] && PlaceAll(s.slots, [51]) == s.slots && Creations(s.slots, [51]) == [];
    OnlyExits(s.slots, [51]);
    SweepIds(s.slots, [51]);
    assert Ids(s.slots) * ToSet([51]) == {};
  }

  lemma {:induction false} OnlyExits(slots: seq<int>, ids: seq<int>)
    ensures forall e :: e in Exits(slots, ids) ==> e.Exited?
  {
    if slots != [] {
      OnlyExits(slots[..|slots| - 1], ids);
    }
  }

  /** While a thread lives it keeps its slot. */
  lemma {:induction false} PlacedStay(slots: seq<int>, ids: seq<int>, i: nat)
    requires i < |slots| && slots[i] != 0
    ensures PlaceAll(slots, ids)[i] == slots[i]
  {
    if ids != [] {
      PlacedStay(slots, ids[..|ids| - 1], i);
    }
  }

  lemma SlotsStay(s: State, ids: seq<int>, i: nat)
    requires i < |s.slots| && s.slots[i] != 0
    ensures Check(s, ids).slots[i] == if s.slots[i] in ids then s.slots[i] else 0
  {
    PlacedStay(s.slots, ids, i);
  }

  // ---------- the notifications ----------

  /** The ids reported created and not yet exited. */
  function Open(log: seq<Event>): set<int> {
    if log == [] then {}
    else
      match log[|log| - 1]
      case Created(id) => Open(log[..|log| - 1]) + {id}
      case Exited(id) => Open(log[..|log| - 1]) - {id}
  }

  /** Only ids not open are created, and only open ones exit. */
  predicate Legal(log: seq<Event>) {
    log == [] ||
    (Legal(log[..|log| - 1]) &&
     (log[|log| - 1].id in Open(log[..|log| - 1]) <==> log[|log| - 1].Exited?))
  }

  lemma LogSnoc(log: seq<Event>, e: Event)
    ensures Open(log + [e]) == if e.Created? then Open(log) + {e.id} else Open(log) - {e.id}
    ensures Legal(log + [e]) <==> Legal(log) && (e.id in Open(log) <==> e.Exited?)
  {
    assert (log + [e])[..|log|] == log;
  }

  ghost predicate InStep(s: State) {
    WellFormed(s.slots) && Legal(s.log) && Open(s.log) == Ids(s.slots)
  }

  lemma {:induction false} CreationsInStep(s: State, ids: seq<int>)
    requires InStep(s) && Positive(ids)
    ensures InStep(State(PlaceAll(s.slots, ids), s.log + Creations(s.slots, ids)))
  {
    if ids == [] {
      assert s.log + [] == s.log;
    } else {
      var before, id := ids[..|ids| - 1], ids[|ids| - 1];
      CreationsInStep(s, before);
      var now, log := PlaceAll(s.slots, before), s.log + Creations(s.slots, before);
      PlaceIds(now, id);
      LogSnoc(log, Created(id));
      assert s.log + (Creations(s.slots, before) + [Created(id)]) == log + [Created(id)];
      assert s.log + (Creations(s.slots, before) + []) == log;
    }
  }

  /** Sweeping slot by slot reports exactly the ids that go. */
  lemma {:induction false} ExitsInStep(s: State, ids: seq<int>, k: nat)
    requires InStep(s) && k <= |s.slots|
    ensures var log := s.log + Exits(s.slots[..k], ids);
            Legal(log) && Open(log) == Ids(s.slots) - (Ids(s.slots[..k]) - ToSet(ids))
  {
    hide Legal, Open;
    if k == 0 {
      assert s.log + [] == s.log && Ids(s.slots[..0]) == {};
    } else {
      var id := s.slots[k - 1];
      ExitsInStep(s, ids, k - 1);
      assert s.slots[..k] == s.slots[..k - 1] + [id];
      IdsSnoc(s.slots[..k - 1], id);
      NotBefore(s.slots, k - 1);
      ExitsSnoc(s.slots[..k - 1], ids, id);
      var log := s.log + Exits(s.slots[..k - 1], ids);
      LogSnoc(log, Exited(id));
      assert s.log + (Exits(s.slots[..k - 1], ids) + [Exited(id)]) == log + [Exited(id)];
      assert s.log + (Exits(s.slots[..k - 1], ids) + []) == log;
    }
  }

  lemma ExitsSnoc(slots: seq<int>, ids: seq<int>, id: int)
    ensures Exits(slots + [id], ids) == Exits(slots, ids) + if id > 0 && id !in ids then [Exited(id)] else []
  {
    assert (slots + [id])[..|slots|] == slots;
  }

  /** An id does not stand in an earlier slot as well. */
  lemma NotBefore(slots: seq<int>, k: nat)
    requires WellFormed(slots) && k < |slots|
    ensures slots[k] >= 0 && (slots[k] != 0 ==> slots[k] in Ids(slots) && slots[k] !in Ids(slots[..k]))
  {}

  /** A check keeps table and notifications in step. */
  lemma CheckInStep(s: State, ids: seq<int>)
    requires InStep(s) && Positive(ids)
    ensures InStep(Check(s, ids))
  {
    CreationsInStep(s, ids);
    var m := State(PlaceAll(s.slots, ids), s.log + Creations(s.slots, ids));
    ExitsInStep(m, ids, |m.slots|);
    assert m.slots[..|m.slots|] == m.slots;
    SweepIds(m.slots, ids);
    assert Ids(m.slots) - (Ids(m.slots) - ToSet(ids)) == Ids(m.slots) * ToSet(ids);
  }

  /** The ids not in the table, in the order they are listed in first. */
  function NewIds(slots: seq<int>, ids: seq<int>): seq<int> {
    if ids == [] then []
    else
      var before, id := NewIds(slots, ids[..|ids| - 1]), ids[|ids| - 1];
      if id in slots || id in before then before else before + [id]
  }

  function Announce(ids: seq<int>): seq<Event> {
    seq(|ids|, i requires 0 <= i < |ids| => Created(ids[i]))
  }

  /** Of the new threads as many are announced as there are free slots, in the order of the process. */
  lemma {:induction false} CreationsInOrder(slots: seq<int>, ids: seq<int>)
    requires WellFormed(slots) && Positive(ids)
    ensures var free, listed := |slots| - |Ids(slots)|, NewIds(slots, ids);
            && 0 <= free && Creations(slots, ids) == Announce(Take(listed, free))
            && Ids(PlaceAll(slots, ids)) == Ids(slots) + ToSet(Take(listed, free))
            && |Ids(PlaceAll(slots, ids))| == |Ids(slots)| + |Take(listed, free)|
  {
    hide Ids, ToSet, WellFormed, Place;
    CountIds(slots);
    var free := |slots| - |Ids(slots)|;
    if ids == [] {
      ToSetSnoc([], 0);
      assert Ids(slots) + {} == Ids(slots);
    } else {
      var before, id := ids[..|ids| - 1], ids[|ids| - 1];
      assert ids == before + [id];
      CreationsInOrder(slots, before);
      PlaceAllIds(slots, before);
      PlaceNext(slots, before, id, free);
    }
  }

  lemma InIds(slots: seq<int>, ids: seq<int>, id: int)
    requires id > 0
    ensures id in Ids(slots) <==> id in slots
    ensures id in ToSet(ids) <==> id in ids
  {}

  lemma PlaceNext(slots: seq<int>, before: seq<int>, id: int, free: nat)
    requires WellFormed(slots) && Positive(before) && id > 0 && free == |slots| - |Ids(slots)|
    requires var now, listed := PlaceAll(slots, before), NewIds(slots, before);
             && WellFormed(now) && Creations(slots, before) == Announce(Take(listed, free))
             && Ids(now) == Ids(slots) + ToSet(Take(listed, free)) && |Ids(now)| == |Ids(slots)| + |Take(listed, free)|
    ensures var ids := before + [id]; var next, listed := PlaceAll(slots, ids), NewIds(slots, ids);
            && Creations(slots, ids) == Announce(Take(listed, free))
            && Ids(next) == Ids(slots) + ToSet(Take(listed, free)) && |Ids(next)| == |Ids(slots)| + |Take(listed, free)|
  {
    hide Ids, ToSet, WellFormed, Place, Creations, PlaceAll, NewIds, Announce;
    var now, listed := PlaceAll(slots, before), NewIds(slots, before);
    PlacedMore(slots, before, id);
    NewIdsSnoc(slots, before, id);
    PlaceIds(now, id);
    CountIds(now);
    InIds(slots, Take(listed, free), id);
    InIds(now, listed, id);
    assert Creations(slots, before) + [] == Creations(slots, before);
    if |listed| >= free {
      assert 0 !in now && Take(listed + [id], free) == Take(listed, free);
    } else if id in slots || id in listed {
      assert id in now;
    } else {
      assert 0 in now && id !in now;
      ToSetSnoc(listed, id);
      assert Take(listed + [id], free) == listed + [id];
      AnnounceSnoc(listed, id);
      assert Ids(slots) + ToSet(listed) + {id} == Ids(slots) + ToSet(listed + [id]);
    }
  }

  lemma NewIdsSnoc(slots: seq<int>, before: seq<int>, id: int)
    ensures var listed := NewIds(slots, before);
            NewIds(slots, before + [id]) == if id in slots || id in listed then listed else listed + [id]
  {
    assert (before + [id])[..|before|] == before;
  }

  lemma AnnounceSnoc(ids: seq<int>, id: int)
    ensures Announce(ids + [id]) == Announce(ids) + [Created(id)]
  {}

  lemma {:induction false} ExitsAre(slots: seq<int>, ids: seq<int>)
    ensures var r := Exits(slots, ids);
            && (forall id :: Exited(id) in r <==> id in slots && id > 0 && id !in ids)
            && (forall i :: 0 <= i < |r| ==> r[i].Exited? && r[i].id in slots)
  {
    if slots != [] {
      var init, id := slots[..|slots| - 1], slots[|slots| - 1];
      assert slots == init + [id];
      ExitsAre(init, ids);
    }
  }

  /** The events are in the order of the slots of their threads. */
  ghost predicate InSlotOrder(slots: seq<int>, r: seq<Event>) {
    && (forall i :: 0 <= i < |r| ==> r[i].id in slots)
    && forall i, j :: 0 <= i < j < |r| ==> IndexOf(slots, r[i].id) < IndexOf(slots, r[j].id)
  }

  /** The ended threads are announced in the order of their slots, each of them once. */
  lemma {:induction false} ExitsInOrder(slots: seq<int>, ids: seq<int>)
    requires WellFormed(slots)
    ensures var r := Exits(slots, ids);
            InSlotOrder(slots, r) && forall id :: Exited(id) in r <==> id in slots && id > 0 && id !in ids
  {
    ExitsAre(slots, ids);
    if slots != [] {
      var n := |slots| - 1;
      var init, id := slots[..n], slots[n];
      assert slots == init + [id];
      InitWellFormed(slots);
      ExitsInOrder(init, ids);
      ExitsSnoc(init, ids, id);
      hide Exits, WellFormed, InSlotOrder;
      OneSlotMore(init, id, Exits(init, ids));
      if id > 0 {
        OneExitMore(init, id, Exits(init, ids));
      }
    }
  }

  lemma OneSlotMore(init: seq<int>, id: int, r: seq<Event>)
    requires InSlotOrder(init, r)
    ensures InSlotOrder(init + [id], r + [])
  {
    hide IndexOf;
    assert r + [] == r;
    forall i, j | 0 <= i < j < |r|
      ensures IndexOf(init + [id], r[i].id) < IndexOf(init + [id], r[j].id)
    {
      IndexBefore(init, id, r[i].id);
      IndexBefore(init, id, r[j].id);
    }
  }

  lemma OneExitMore(init: seq<int>, id: int, r: seq<Event>)
    requires InSlotOrder(init, r) && WellFormed(init + [id]) && id > 0
    ensures InSlotOrder(init + [id], r + [Exited(id)])
  {
    hide IndexOf, WellFormed;
    var all := r + [Exited(id)];
    IndexOfLast(init + [id]);
    forall i, j | 0 <= i < j < |all|
      ensures IndexOf(init + [id], all[i].id) < IndexOf(init + [id], all[j].id)
    {
      IndexBefore(init, id, r[i].id);
      if j < |r| {
        IndexBefore(init, id, r[j].id);
      }
    }
  }

  lemma IndexBefore(init: seq<int>, id: int, x: int)
    requires x in init
    ensures IndexOf(init + [id], x) == IndexOf(init, x) < |init|
  {
    var i := IndexOf(init, x);
    assert i < |init|;
    IndexOfIs(init + [id], x, i);
  }

  lemma IndexOfLast(slots: seq<int>)
    requires WellFormed(slots) && slots != [] && slots[|slots| - 1] > 0
    ensures IndexOf(slots, slots[|slots| - 1]) == |slots| - 1
  {
    IndexOfIs(slots, slots[|slots| - 1], |slots| - 1);
  }

  function CheckAll(calls: seq<seq<int>>): State {
    if calls == [] then Empty() else Check(CheckAll(calls[..|calls| - 1]), calls[|calls| - 1])
  }

  /** The events of one thread. */
  function Project(log: seq<Event>, id: int): seq<Event> {
    if log == [] then []
    else Project(log[..|log| - 1], id) + if log[|log| - 1].id == id then [log[|log| - 1]] else []
  }

  /** In a legal log every thread is created, exits, is created again, and so on, and is open after an
      odd number of events. */
  lemma {:induction false} Alternates(log: seq<Event>, id: int)
    requires Legal(log)
    ensures var p := Project(log, id);
            && (forall k :: 0 <= k < |p| ==> p[k] == if k % 2 == 0 then Created(id) else Exited(id))
            && (id in Open(log) <==> |p| % 2 == 1)
  {
    if log != [] {
      Alternates(log[..|log| - 1], id);
    }
  }

  /** Over any run of checks: the table is well formed, the ids created and not yet exited are exactly
      its contents, and every thread's notifications alternate. */
  lemma {:induction false} EveryRun(calls: seq<seq<int>>)
    requires forall i :: 0 <= i < |calls| ==> Positive(calls[i])
    ensures var s := CheckAll(calls);
            && InStep(s) && |s.slots| == THREADS_MAX
            && (forall id, k :: 0 <= k < |Project(s.log, id)| ==>
                  Project(s.log, id)[k] == if k % 2 == 0 then Created(id) else Exited(id))
  {
    if calls == [] {
      assert Ids(Empty().slots) == {};
    } else {
      EveryRun(calls[..|calls| - 1]);
      CheckInStep(CheckAll(calls[..|calls| - 1]), calls[|calls| - 1]);
    }
    forall id
      ensures forall k :: 0 <= k < |Project(CheckAll(calls).log, id)| ==>
                Project(CheckAll(calls).log, id)[k] == if k % 2 == 0 then Created(id) else Exited(id)
    {
      Alternates(CheckAll(calls).log, id);
    }
  }
}
