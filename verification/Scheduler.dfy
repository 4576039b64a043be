/** The scheduler: a binary heap of events ordered by time, and the loop that fires those
    that are due while their callbacks schedule and remove others. */
module Scheduler {
  import opened Events
  import opened Callbacks

  // ----- heaps ---------------------------------------------------------------

  ghost predicate IsHeap(s: seq<Event>) {
    forall p, i :: 0 <= p < i < |s| && p == (i - 1) / 2 ==> s[p].timestamp <= s[i].timestamp
  }

  /** The front of a heap is its least element. */
  lemma {:induction false} FrontIsLeast(s: seq<Event>, i: nat)
    requires IsHeap(s) && i < |s|
    ensures s[0].timestamp <= s[i].timestamp
  {
    if i > 0 {
      FrontIsLeast(s, (i - 1) / 2);
    }
  }

  function Inserted(e: Event, s: seq<Event>): seq<Event> {
    if s == [] || e.timestamp <= s[0].timestamp then [e] + s else [s[0]] + Inserted(e, s[1..])
  }

  function Sorted(s: seq<Event>): seq<Event> {
    if s == [] then [] else Inserted(s[0], Sorted(s[1..]))
  }

  ghost predicate Ascending(s: seq<Event>) {
    forall i, j :: 0 <= i < j < |s| ==> s[i].timestamp <= s[j].timestamp
  }

  lemma {:induction false} InsertedElements(e: Event, s: seq<Event>)
    ensures multiset(Inserted(e, s)) == multiset(s) + multiset{e}
  {
    if s != [] && e.timestamp > s[0].timestamp {
      InsertedElements(e, s[1..]);
      assert s == [s[0]] + s[1..];
    }
  }

  lemma {:induction false} InsertedAscends(e: Event, s: seq<Event>)
    requires Ascending(s)
    ensures Ascending(Inserted(e, s))
  {
    hide Ascending;
    if s != [] && e.timestamp > s[0].timestamp {
      AscendingTail(s);
      InsertedAscends(e, s[1..]);
      InsertedElements(e, s[1..]);
      var r := Inserted(e, s[1..]);
      forall j | 0 <= j < |r| ensures s[0].timestamp <= r[j].timestamp {
        assert r[j] in multiset(r);
        assert r[j] == e || r[j] in s[1..];
      }
      AscendingCons(s[0], r);
    } else {
      if s != [] {
        AscendingTail(s);
      }
      AscendingCons(e, s);
    }
  }

  lemma AscendingTail(s: seq<Event>)
    requires Ascending(s) && s != []
    ensures Ascending(s[1..]) && forall e <- s :: s[0].timestamp <= e.timestamp
  {
  }

  lemma AscendingCons(e: Event, s: seq<Event>)
    requires Ascending(s) && forall f <- s :: e.timestamp <= f.timestamp
    ensures Ascending([e] + s)
  {
    assert forall i :: 0 <= i < |s| ==> s[i] in s;
  }

  lemma AscendingIsHeap(s: seq<Event>)
    requires Ascending(s)
    ensures IsHeap(s)
  {
  }

  lemma {:induction false} SortedIsHeap(s: seq<Event>)
    ensures Ascending(Sorted(s)) && IsHeap(Sorted(s))
    ensures multiset(Sorted(s)) == multiset(s)
  {
    if s != [] {
      hide Ascending, Inserted, IsHeap;
      SortedIsHeap(s[1..]);
      InsertedAscends(s[0], Sorted(s[1..]));
      InsertedElements(s[0], Sorted(s[1..]));
      AscendingIsHeap(Sorted(s));
      assert s == [s[0]] + s[1..];
    }
  }

  /** Stands for std::make_heap and, after an element was added, for std::push_heap: callers
      know only what these promise, a heap of the same elements. */
  method Arrange(s: seq<Event>) returns (r: seq<Event>)
    ensures IsHeap(r) && multiset(r) == multiset(s)
  {
    SortedIsHeap(s);
    r := Sorted(s);
  }

  /** Stands for std::pop_heap: the front goes to the back, the others form a heap. */
  method PopHeap(s: seq<Event>) returns (r: seq<Event>)
    requires IsHeap(s) && s != []
    ensures |r| == |s| && r[|s| - 1] == s[0] && IsHeap(r[..|s| - 1])
    ensures multiset(r) == multiset(s)
  {
    hide IsHeap;
    assert s == [s[0]] + s[1..];
    var rest := Arrange(s[1..]);
    assert |rest| == |multiset(rest)| == |multiset(s[1..])|;
    r := rest + [s[0]];
    assert r[..|s| - 1] == rest;
  }

  // ----- heaps as sets of events ---------------------------------------------

  /** The heap holds each pending event once. */
  ghost predicate Holds(heap: seq<Event>, pending: set<Event>) {
    multiset(heap) == multiset(pending)
  }

  lemma HoldsMembers(heap: seq<Event>, pending: set<Event>)
    requires Holds(heap, pending)
    ensures forall e :: e in heap <==> e in pending
    ensures heap == [] <==> pending == {}
  {
    forall e ensures e in heap <==> e in pending {
      assert e in heap <==> e in multiset(heap);
      assert e in multiset(pending) <==> e in pending;
    }
    if heap != [] {
      assert heap[0] in heap;
    }
  }

  lemma FrontIsPending(heap: seq<Event>, pending: set<Event>)
    requires Holds(heap, pending) && IsHeap(heap) && heap != []
    ensures Least(heap[0], pending)
  {
    HoldsMembers(heap, pending);
    forall f <- pending ensures heap[0].timestamp <= f.timestamp {
      var i :| 0 <= i < |heap| && heap[i] == f;
      FrontIsLeast(heap, i);
    }
  }

  lemma HoldsMore(heap: seq<Event>, pending: set<Event>, e: Event, heap': seq<Event>)
    requires Holds(heap, pending) && e !in pending && multiset(heap') == multiset(heap + [e])
    ensures Holds(heap', pending + {e})
  {
    assert multiset(pending + {e}) == multiset(pending) + multiset{e};
  }

  lemma HoldsLess(heap: seq<Event>, pending: set<Event>, heap': seq<Event>)
    requires Holds(heap, pending) && heap' != [] && multiset(heap') == multiset(heap)
    ensures Holds(heap'[..|heap'| - 1], pending - {heap'[|heap'| - 1]})
  {
    var rest, e := heap'[..|heap'| - 1], heap'[|heap'| - 1];
    assert heap' == rest + [e];
    assert e in multiset(heap');
    assert multiset(rest) == multiset(pending) - multiset{e};
  }

  /** The elements std::remove_if keeps, in their order. */
  function Kept(s: seq<Event>, handle: nat): (r: seq<Event>)
    ensures |r| <= |s|
  {
    if s == [] then []
    else Kept(s[..|s| - 1], handle) + if s[|s| - 1].handle == handle then [] else [s[|s| - 1]]
  }

  lemma {:induction false} KeptIs(s: seq<Event>, handle: nat)
    ensures forall e :: multiset(Kept(s, handle))[e] == if e.handle == handle then 0 else multiset(s)[e]
    ensures |Kept(s, handle)| == |s| <==> Kept(s, handle) == s
  {
    if s != [] {
      var init, last := s[..|s| - 1], s[|s| - 1];
      KeptIs(init, handle);
      assert s == init + [last];
      assert multiset(s) == multiset(init) + multiset{last};
      assert multiset(Kept(s, handle)) ==
             multiset(Kept(init, handle)) + if last.handle == handle then multiset{} else multiset{last};
    }
  }

  lemma HoldsKept(heap: seq<Event>, pending: set<Event>, handle: nat, heap': seq<Event>)
    requires Holds(heap, pending) && multiset(heap') == multiset(Kept(heap, handle))
    ensures Holds(heap', Without(pending, handle))
  {
    KeptIs(heap, handle);
    var rest := Without(pending, handle);
    forall e: Event ensures multiset(heap')[e] == multiset(rest)[e] {
      assert multiset(heap)[e] == multiset(pending)[e];
    }
  }

  // ----- single steps --------------------------------------------------------

  /** What callbacks do makes nothing overdue. */
  lemma ActKeepsIdle(s: State, t: Action)
    requires NoneOverdue(s)
    ensures NoneOverdue(Apply(s, t))
  {
  }

  /** The next handle is that of no event yet. */
  lemma HandleIsNew(h: seq<Step>)
    requires Proper(h)
    ensures forall e <- Issued(h) :: e.handle != After(h).last + 1
    ensures forall e <- After(h).pending :: e.handle != After(h).last + 1
  {
    HandlesAreFresh(h);
    EventsAreConserved(h);
  }

  lemma Ticks(s: State, cycles: nat)
    ensures Apply(s, Tick(cycles)).now == s.now + cycles && Apply(s, Tick(cycles)).pending == s.pending
    ensures Apply(s, Tick(cycles)).last == s.last
  {
  }

  /** One turn less is left after an event has fired. */
  lemma TurnEnds<W(!new)>(react: Reaction<W>, h: seq<Step>, w: W, e: Event, turns: nat)
    requires EndsWithin(react, w, After(h), turns) && Enabled(After(h), Fire(e))
    ensures turns > 0
    ensures var (h', w') := BurstSteps(react, h, w, e); EndsWithin(react, w', After(h'), turns - 1)
  {
    hide After, Burst, BurstSteps;
    BurstIsBurst(react, h, w, e);
  }

  // ----- the scheduler -------------------------------------------------------

  class Scheduler<W(!new)> {
    var heap: seq<Event>
    var now: nat
    var lastHandle: nat
    /** The rest of the machine, which callbacks work on. */
    var world: W
    const react: Reaction<W>
    /** All that happened. */
    ghost var history: seq<Step>

    ghost predicate Valid()
      reads this
    {
      && Proper(history) && IsHeap(heap) && Holds(heap, After(history).pending)
      && After(history).now == now && After(history).last == lastHandle
    }

    /** Between calls nothing is overdue. */
    ghost predicate Idle()
      reads this
    {
      Valid() && NoneOverdue(After(history))
    }

    constructor (react: Reaction<W>, world: W)
      ensures Idle() && history == [] && this.react == react && this.world == world
    {
      heap, now, lastHandle := [], 0, 0;
      this.react, this.world := react, world;
      history := [];
    }

    method AddHwEvent(delay: nat, callback: int) returns (handle: nat)
      requires Valid()
      modifies this`heap, this`lastHandle, this`history
      ensures Valid() && history == old(history) + [Add(delay, callback)]
      ensures old(Idle()) ==> Idle()
      ensures Event(callback, now + delay, handle) in After(history).pending
      ensures forall e <- Issued(old(history)) :: e.handle != handle
    {
      hide IsHeap, Holds, Proper, After, Issued, Due, NoneOverdue;
      ghost var s, t := After(history), Add(delay, callback);
      Snoc(history, t);
      if NoneOverdue(s) {
        ActKeepsIdle(s, t);
      }
      HandleIsNew(history);
      lastHandle := lastHandle + 1;
      var e := Event(callback, now + delay, lastHandle);
      assert e == Scheduled(s, t) && e !in s.pending;
      var pushed := Arrange(heap + [e]);
      HoldsMore(heap, s.pending, e, pushed);
      heap := pushed;
      history := history + [t];
      return lastHandle;
    }

    method HasEvent(handle: nat) returns (found: bool)
      requires Valid()
      ensures found <==> exists e :: e in After(history).pending && e.handle == handle
    {
      hide IsHeap, Proper, After, Holds;
      HoldsMembers(heap, After(history).pending);
      found := exists e :: e in heap && e.handle == handle;
    }

    method RemoveEvent(handle: nat)
      requires Valid()
      modifies this`heap, this`history
      ensures Valid() && history == old(history) + [Remove(handle)]
      ensures old(Idle()) ==> Idle()
    {
      hide IsHeap, Holds, Proper, After, Due, NoneOverdue;
      ghost var s, t := After(history), Remove(handle);
      Snoc(history, t);
      if NoneOverdue(s) {
        ActKeepsIdle(s, t);
      }
      var kept := Kept(heap, handle);
      KeptIs(heap, handle);
      if |kept| != |heap| {
        var made := Arrange(kept);
        HoldsKept(heap, s.pending, handle, made);
        heap := made;
      } else {
        HoldsKept(heap, s.pending, handle, heap);
      }
      history := history + [t];
    }

    /** What a callback does, step by step. */
    method Perform(acts: seq<Action>)
      requires Valid()
      modifies this`heap, this`lastHandle, this`history
      ensures Valid() && history == old(history) + acts
    {
      hide IsHeap, Holds, Proper, After, NoneOverdue;
      for i := 0 to |acts|
        invariant Valid() && history == old(history) + acts[..i]
      {
        match acts[i] {
          case Add(delay, callback) =>
            var _ := AddHwEvent(delay, callback);
          case Remove(handle) =>
            RemoveEvent(handle);
        }
        assert acts[..i + 1] == acts[..i] + [acts[i]];
      }
    }

    /** Moves the clock on and fires all that is due by then, including what callbacks add.
        The caller owes it that this ends, whichever of several least events fires first. */
    method AddCycles(cycles: nat) returns (ghost fired: seq<Event>)
      requires Idle() && heap != [] && Ends(react, world, Apply(After(history), Tick(cycles)))
      modifies this
      ensures Idle() && NoneDue(After(history)) && now == old(now) + cycles
      ensures (history, world) == Unroll(react, old(history) + [Tick(cycles)], old(world), fired)
    {
      hide IsHeap, Holds, Proper, After, Apply, EndsWithin, Burst, BurstSteps;
      fired := [];
      ghost var s, t := After(history), Tick(cycles);
      Snoc(history, t);
      Ticks(s, cycles);
      now := now + cycles;
      history := history + [t];
      if heap[0].timestamp <= now {
        ghost var turns :| EndsWithin(react, world, After(history), turns);
        while heap != [] && heap[0].timestamp <= now
          invariant Valid() && now == old(now) + cycles
          invariant (history, world) == Unroll(react, old(history) + [Tick(cycles)], old(world), fired)
          invariant EndsWithin(react, world, After(history), turns)
          decreases turns
        {
          FrontIsPending(heap, After(history).pending);
          TurnEnds(react, history, world, heap[0], turns);
          fired := fired + [heap[0]];
          FireFront();
          turns := turns - 1;
        }
      }
      NothingDue();
    }

    /** One turn of the loop of AddCycles. */
    method FireFront()
      requires Valid() && heap != [] && heap[0].timestamp <= now
      modifies this`heap, this`lastHandle, this`history, this`world
      ensures Valid()
      ensures (history, world) == BurstSteps(react, old(history), old(world), old(heap[0]))
    {
      hide IsHeap, Holds, Proper, After, NoneOverdue;
      ghost var s := After(history);
      var event := heap[0];
      FrontIsPending(heap, s.pending);
      Snoc(history, Fire(event));
      var popped := PopHeap(heap);
      HoldsLess(heap, s.pending, popped);
      heap := popped[..|popped| - 1];
      history := history + [Fire(event)];
      HoldsMembers(heap, After(history).pending);
      var seen := State(now, lastHandle, set e | e in heap);
      assert seen.pending == After(history).pending;
      var (next, acts) := react(world, seen, event, now - event.timestamp);
      world := next;
      Perform(acts);
    }

    lemma NothingDue()
      requires Valid() && (heap == [] || heap[0].timestamp > now)
      ensures NoneDue(After(history)) && Idle()
    {
      hide IsHeap, Holds, Proper, After;
      HoldsMembers(heap, After(history).pending);
      if heap != [] {
        FrontIsPending(heap, After(history).pending);
      }
    }

    method TimestampOfNextEvent() returns (t: nat)
      requires Idle() && heap != []
      ensures exists e :: Least(e, After(history).pending) && t == e.timestamp
    {
      hide IsHeap, Holds, Proper, After;
      FrontIsPending(heap, After(history).pending);
      assert Least(heap[0], After(history).pending);
      return heap[0].timestamp;
    }

    method RemainingCyclesToNextEvent() returns (cycles: nat)
      requires Idle() && heap != []
      ensures exists e :: Least(e, After(history).pending) && now + cycles == e.timestamp
    {
      hide IsHeap, Holds, Proper, After;
      var t := TimestampOfNextEvent();
      ghost var e :| Least(e, After(history).pending) && t == e.timestamp;
      assert now <= e.timestamp;
      return t - now;
    }
  }
}
