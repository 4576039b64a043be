/** Timed hardware events as histories of steps: what any run of the scheduler may do, in
    which order events fire, and which of them do. */
module Events {
  datatype Event = Event(callback: int, timestamp: nat, handle: nat)

  datatype Step =
    | Add(delay: nat, callback: int)
    | Remove(handle: nat)
    | Tick(cycles: nat)
    | Fire(event: Event)

  datatype State = State(now: nat, last: nat, pending: set<Event>)

  ghost function Scheduled(s: State, t: Step): Event
    requires t.Add?
  {
    Event(t.callback, s.now + t.delay, s.last + 1)
  }

  ghost function Without(pending: set<Event>, handle: nat): set<Event> {
    set e | e in pending && e.handle != handle
  }

  ghost function Apply(s: State, t: Step): State {
    match t
    case Add(_, _) => State(s.now, s.last + 1, s.pending + {Scheduled(s, t)})
    case Remove(h) => s.(pending := Without(s.pending, h))
    case Tick(c) => s.(now := s.now + c)
    case Fire(e) => s.(pending := s.pending - {e})
  }

  ghost predicate NoneOverdue(s: State) {
    forall e <- s.pending :: s.now <= e.timestamp
  }

  ghost predicate NoneDue(s: State) {
    forall e <- s.pending :: s.now < e.timestamp
  }

  ghost predicate Least(e: Event, pending: set<Event>) {
    e in pending && forall f <- pending :: e.timestamp <= f.timestamp
  }

  /** The clock moves on when nothing is overdue; an event fires when it is due and none
      is due before it. */
  ghost predicate Enabled(s: State, t: Step) {
    match t
    case Add(_, _) => true
    case Remove(_) => true
    case Tick(_) => NoneOverdue(s)
    case Fire(e) => Least(e, s.pending) && e.timestamp <= s.now
  }

  ghost function After(h: seq<Step>): State {
    if h == [] then State(0, 0, {}) else Apply(After(h[..|h| - 1]), h[|h| - 1])
  }

  ghost predicate Proper(h: seq<Step>) {
    h == [] || (Proper(h[..|h| - 1]) && Enabled(After(h[..|h| - 1]), h[|h| - 1]))
  }

  lemma Snoc(h: seq<Step>, t: Step)
    ensures After(h + [t]) == Apply(After(h), t)
    ensures Proper(h + [t]) <==> Proper(h) && Enabled(After(h), t)
  {
    assert (h + [t])[..|h|] == h;
  }

  lemma {:induction false} ProperPrefix(h: seq<Step>, i: nat)
    requires Proper(h) && i <= |h|
    ensures Proper(h[..i])
    ensures i < |h| ==> Enabled(After(h[..i]), h[i])
  {
    if i == |h| {
      assert h[..i] == h;
    } else if i < |h| - 1 {
      var init := h[..|h| - 1];
      ProperPrefix(init, i);
      assert init[..i] == h[..i];
    }
  }

  // ----- what becomes of an event --------------------------------------------

  /** All events ever scheduled, those fired, and those removed before they fired. */
  ghost function Issued(h: seq<Step>): set<Event> {
    if h == [] then {}
    else
      var init, t := h[..|h| - 1], h[|h| - 1];
      if t.Add? then Issued(init) + {Scheduled(After(init), t)} else Issued(init)
  }

  ghost function Fired(h: seq<Step>): set<Event> {
    if h == [] then {}
    else
      var init, t := h[..|h| - 1], h[|h| - 1];
      if t.Fire? then Fired(init) + {t.event} else Fired(init)
  }

  ghost function Removed(h: seq<Step>): set<Event> {
    if h == [] then {}
    else
      var init, t := h[..|h| - 1], h[|h| - 1];
      if t.Remove? then Removed(init) + (After(init).pending - Without(After(init).pending, t.handle))
      else Removed(init)
  }

  ghost predicate Numbered(issued: set<Event>, last: nat) {
    && (forall e <- issued :: 1 <= e.handle <= last)
    && (forall e, f :: e in issued && f in issued && e.handle == f.handle ==> e == f)
    && |issued| == last
  }

  /** No handle is given out twice. */
  lemma {:induction false} HandlesAreFresh(h: seq<Step>)
    ensures Numbered(Issued(h), After(h).last)
  {
    if h != [] {
      HandlesAreFresh(h[..|h| - 1]);
    }
  }

  ghost predicate Partition<T>(all: set<T>, a: set<T>, b: set<T>, c: set<T>) {
    all == a + b + c && a !! b && a !! c && b !! c
  }

  /** Conservation: every event scheduled is still pending, has fired, or has been removed,
      and only one of the three. */
  lemma {:induction false} EventsAreConserved(h: seq<Step>)
    requires Proper(h)
    ensures Partition(Issued(h), After(h).pending, Fired(h), Removed(h))
  {
    if h != [] {
      hide Partition, Enabled;
      var init, t := h[..|h| - 1], h[|h| - 1];
      assert h == init + [t];
      EventsAreConserved(init);
      ConservedBy(init, t);
    }
  }

  /** What one step does to the three sets. */
  lemma ConservedBy(init: seq<Step>, t: Step)
    requires Enabled(After(init), t)
    requires Partition(Issued(init), After(init).pending, Fired(init), Removed(init))
    ensures var h := init + [t]; Partition(Issued(h), After(h).pending, Fired(h), Removed(h))
  {
    hide After, Issued, Fired, Removed, Partition;
    Snoc(init, t);
    SetsSnoc(init, t);
    var i, p, f, r := Issued(init), After(init).pending, Fired(init), Removed(init);
    match t {
      case Add(_, _) =>
        HandlesAreFresh(init);
        AddToPart(i, p, f, r, Scheduled(After(init), t));
      case Remove(handle) =>
        MovePart(i, p, f, r, Without(p, handle));
      case Tick(_) =>
      case Fire(e) =>
        MovePart(i, p, r, f, p - {e});
        assert p - (p - {e}) == {e};
    }
  }

  lemma AddToPart<T>(all: set<T>, a: set<T>, b: set<T>, c: set<T>, e: T)
    requires Partition(all, a, b, c) && e !in all
    ensures Partition(all + {e}, a + {e}, b, c)
  {
  }

  lemma MovePart<T>(all: set<T>, a: set<T>, b: set<T>, c: set<T>, kept: set<T>)
    requires (Partition(all, a, b, c) || Partition(all, a, c, b)) && kept <= a
    ensures Partition(all, kept, b, c + (a - kept)) && Partition(all, kept, c + (a - kept), b)
  {
  }

  lemma SetsSnoc(init: seq<Step>, t: Step)
    ensures Issued(init + [t]) == if t.Add? then Issued(init) + {Scheduled(After(init), t)} else Issued(init)
    ensures Fired(init + [t]) == if t.Fire? then Fired(init) + {t.event} else Fired(init)
    ensures Removed(init + [t]) ==
            if t.Remove? then Removed(init) + (After(init).pending - Without(After(init).pending, t.handle))
            else Removed(init)
  {
    assert (init + [t])[..|init|] == init;
  }

  lemma {:induction false} FiredIsSome(h: seq<Step>, e: Event)
    ensures e in Fired(h) <==> exists i :: 0 <= i < |h| && h[i] == Fire(e)
  {
    if h != [] {
      var init := h[..|h| - 1];
      FiredIsSome(init, e);
      assert forall i :: 0 <= i < |init| ==> init[i] == h[i];
      if e in Fired(init) {
        var i :| 0 <= i < |init| && init[i] == Fire(e);
        assert h[i] == Fire(e);
      } else if h[|h| - 1] == Fire(e) {
      } else if i :| 0 <= i < |h| && h[i] == Fire(e) {
        assert init[i] == Fire(e);
      }
    }
  }

  /** An event is removed exactly by a removal of its own handle while it is pending. */
  lemma {:induction false} RemovedIff(h: seq<Step>, e: Event)
    requires Proper(h)
    ensures e in Removed(h) <==>
            exists i :: 0 <= i < |h| && h[i] == Remove(e.handle) && e in Issued(h[..i]) && e !in Fired(h[..i])
  {
    if h != [] {
      hide After, Proper, Enabled, Issued, Fired;
      var init, t := h[..|h| - 1], h[|h| - 1];
      assert h == init + [t];
      Snoc(init, t);
      RemovedIff(init, e);
      SetsSnoc(init, t);
      EventsAreConserved(init);
      forall i | 0 <= i < |h| ensures h[..i] == if i < |init| then init[..i] else init {
      }
      if e in Removed(init) {
        var i :| 0 <= i < |init| && init[i] == Remove(e.handle) && e in Issued(init[..i]) && e !in Fired(init[..i]);
        assert h[i] == Remove(e.handle);
      } else if e in Removed(h) {
        assert h[|init|] == Remove(e.handle) && e in Issued(h[..|init|]) && e !in Fired(h[..|init|]);
      }
      if i :| 0 <= i < |h| && h[i] == Remove(e.handle) && e in Issued(h[..i]) && e !in Fired(h[..i]) {
        assert i < |init| ==> init[i] == Remove(e.handle);
      }
    }
  }

  /** No event is lost: once nothing is due, whatever was scheduled for a time that has
      come and was not removed has fired. */
  lemma NoneIsMissed(h: seq<Step>, e: Event)
    requires Proper(h) && NoneDue(After(h))
    requires e in Issued(h) && e !in Removed(h)
    ensures e.timestamp <= After(h).now <==> exists i :: 0 <= i < |h| && h[i] == Fire(e)
  {
    EventsAreConserved(h);
    FiredIsSome(h, e);
    if e in Fired(h) {
      var i :| 0 <= i < |h| && h[i] == Fire(e);
      ProperPrefix(h, i);
      ClockIsMonotone(h, i);
    }
  }

  /** What nobody removed by its handle fires exactly when its time has come. */
  lemma FiresUnlessRemoved(h: seq<Step>, e: Event)
    requires Proper(h) && NoneDue(After(h)) && e in Issued(h)
    requires forall i :: 0 <= i < |h| ==> h[i] != Remove(e.handle)
    ensures e.timestamp <= After(h).now <==> exists i :: 0 <= i < |h| && h[i] == Fire(e)
  {
    RemovedIff(h, e);
    NoneIsMissed(h, e);
  }

  lemma {:induction false} ClockIsMonotone(h: seq<Step>, i: nat)
    requires i <= |h|
    ensures After(h[..i]).now <= After(h).now && After(h[..i]).last <= After(h).last
    ensures Fired(h[..i]) <= Fired(h) && Removed(h[..i]) <= Removed(h) && Issued(h[..i]) <= Issued(h)
  {
    if i == |h| {
      assert h[..i] == h;
    } else {
      var init := h[..|h| - 1];
      ClockIsMonotone(init, i);
      assert init[..i] == h[..i];
    }
  }

  /** An event fires at most once. */
  lemma FiresOnce(h: seq<Step>, i: nat, j: nat)
    requires Proper(h) && i < j < |h| && h[i].Fire? && h[j].Fire?
    ensures h[i].event.handle != h[j].event.handle
  {
    var before := h[..j];
    ProperPrefix(h, j);
    EventsAreConserved(before);
    HandlesAreFresh(before);
    FiredIsSome(before, h[i].event);
    assert before[i] == h[i];
  }

  /** An event that was removed does not fire, nor does a later one in its place. */
  lemma RemovedStaysRemoved(h: seq<Step>, i: nat, j: nat)
    requires Proper(h) && i < j < |h| && h[i].Remove? && h[j].Fire?
    requires h[i].handle <= After(h[..i]).last
    ensures h[j].event.handle != h[i].handle
  {
    var k, before := h[i].handle, h[..j];
    ProperPrefix(h, j);
    assert before[..i] == h[..i] && before[i] == h[i];
    NotPendingAfter(before, i, k);
  }

  lemma {:induction false} NotPendingAfter(h: seq<Step>, i: nat, k: nat)
    requires i < |h| && h[i] == Remove(k) && k <= After(h[..i]).last
    ensures forall e <- After(h).pending :: e.handle != k
  {
    var init := h[..|h| - 1];
    if i < |h| - 1 {
      assert init[..i] == h[..i];
      NotPendingAfter(init, i, k);
      ClockIsMonotone(init, i);
    }
  }

  // ----- order and lateness --------------------------------------------------

  /** When an event has fired, whatever is still pending is due no earlier. */
  lemma {:induction false} PendingIsLater(h: seq<Step>, i: nat)
    requires Proper(h) && i < |h| && h[i].Fire?
    ensures forall e <- After(h).pending :: h[i].event.timestamp <= e.timestamp
    ensures h[i].event.timestamp <= After(h).now
  {
    if i < |h| - 1 {
      PendingIsLater(h[..|h| - 1], i);
    }
  }

  /** Over a whole run, whatever callbacks schedule in between, events fire in the order
      of their timestamps. */
  lemma FiresInOrder(h: seq<Step>, i: nat, j: nat)
    requires Proper(h) && i < j < |h| && h[i].Fire? && h[j].Fire?
    ensures h[i].event.timestamp <= h[j].event.timestamp
  {
    var before := h[..j];
    ProperPrefix(h, j);
    assert before[i] == h[i];
    PendingIsLater(before, i);
  }

  /** The cycles of the last tick. */
  ghost function LastTick(h: seq<Step>): nat {
    if h == [] then 0
    else if h[|h| - 1].Tick? then h[|h| - 1].cycles
    else LastTick(h[..|h| - 1])
  }

  lemma {:induction false} PendingIsRecent(h: seq<Step>)
    requires Proper(h)
    ensures forall e <- After(h).pending :: After(h).now <= e.timestamp + LastTick(h)
  {
    if h != [] {
      PendingIsRecent(h[..|h| - 1]);
    }
  }

  /** No event fires early, and none later than the last tick was long. */
  lemma LatenessIsBounded(h: seq<Step>, i: nat)
    requires Proper(h) && i < |h| && h[i].Fire?
    ensures 0 <= After(h[..i]).now - h[i].event.timestamp <= LastTick(h[..i])
  {
    ProperPrefix(h, i);
    PendingIsRecent(h[..i]);
  }
}
