/** What callbacks do to the scheduler while events fire, and for which callbacks the loop
    that fires them ends. */
module Callbacks {
  import opened Basics
  import opened Events

  /** What a callback can do: schedule an event or remove one. */
  type Action = t: Step | t.Add? || t.Remove? witness Add(0, 0)

  /** What a callback does to the scheduler, and to the rest of the machine: it is told how
      late it is, and may look at the scheduler. */
  type Reaction<!W> = (W, State, Event, nat) -> (W, seq<Action>)

  // ----- firing, as a function -----------------------------------------------

  ghost function ActAll(s: State, acts: seq<Step>): State {
    if acts == [] then s else Apply(ActAll(s, acts[..|acts| - 1]), acts[|acts| - 1])
  }

  ghost function Lateness(s: State, e: Event): nat {
    if e.timestamp <= s.now then s.now - e.timestamp else 0
  }

  /** An event fires, and its callback acts. */
  ghost function Burst<W>(react: Reaction<W>, w: W, s: State, e: Event): (W, State) {
    var s' := Apply(s, Fire(e));
    var (w', acts) := react(w, s', e, Lateness(s', e));
    (w', ActAll(s', acts))
  }

  /** The same, as a history. */
  ghost function BurstSteps<W>(react: Reaction<W>, h: seq<Step>, w: W, e: Event): (seq<Step>, W) {
    var h' := h + [Fire(e)];
    var s := After(h');
    var (w', acts) := react(w, s, e, Lateness(s, e));
    (h' + acts, w')
  }

  /** The history in which the given events fire one after the other, each followed by
      what its callback does. */
  ghost function Unroll<W>(react: Reaction<W>, h: seq<Step>, w: W, fired: seq<Event>): (seq<Step>, W) {
    if fired == [] then (h, w)
    else
      var (h', w') := Unroll(react, h, w, fired[..|fired| - 1]);
      BurstSteps(react, h', w', fired[|fired| - 1])
  }

  lemma {:induction false} AfterActs(h: seq<Step>, acts: seq<Step>)
    ensures After(h + acts) == ActAll(After(h), acts)
  {
    if acts == [] {
      assert h + acts == h;
    } else {
      var init, t := acts[..|acts| - 1], acts[|acts| - 1];
      assert h + acts == (h + init) + [t];
      AfterActs(h, init);
      Snoc(h + init, t);
    }
  }

  lemma BurstIsBurst<W(!new)>(react: Reaction<W>, h: seq<Step>, w: W, e: Event)
    ensures var (h', w') := BurstSteps(react, h, w, e); (w', After(h')) == Burst(react, w, After(h), e)
  {
    hide After, ActAll, Apply;
    Snoc(h, Fire(e));
    var s := After(h + [Fire(e)]);
    AfterActs(h + [Fire(e)], react(w, s, e, Lateness(s, e)).1);
  }

  lemma {:induction false} ActAllKeeps(s: State, acts: seq<Action>)
    ensures ActAll(s, acts).now == s.now
    ensures forall e :: e in ActAll(s, acts).pending && e !in s.pending ==>
              s.now <= e.timestamp && (NoneAtOnce(acts) ==> s.now < e.timestamp)
  {
    if acts != [] {
      ActAllKeeps(s, acts[..|acts| - 1]);
    }
  }

  ghost predicate NoneAtOnce(acts: seq<Action>) {
    forall i :: 0 <= i < |acts| ==> acts[i].Add? ==> acts[i].delay > 0
  }

  // ----- when the loop ends --------------------------------------------------

  /** Whichever of the least events fires first, the loop makes at most n turns. */
  ghost predicate EndsWithin<W(!new)>(react: Reaction<W>, w: W, s: State, n: nat)
    decreases n
  {
    forall e :: Enabled(s, Fire(e)) ==>
      n > 0 && var (w', s') := Burst(react, w, s, e); EndsWithin(react, w', s', n - 1)
  }

  ghost predicate Ends<W(!new)>(react: Reaction<W>, w: W, s: State) {
    exists n :: EndsWithin(react, w, s, n)
  }

  lemma {:induction false} EndsLater<W(!new)>(react: Reaction<W>, w: W, s: State, n: nat, m: nat)
    requires EndsWithin(react, w, s, n) && n <= m
    ensures EndsWithin(react, w, s, m)
    decreases n
  {
    forall e | Enabled(s, Fire(e))
      ensures m > 0 && var (w', s') := Burst(react, w, s, e); EndsWithin(react, w', s', m - 1)
    {
      var (w', s') := Burst(react, w, s, e);
      EndsLater(react, w', s', n - 1, m - 1);
    }
  }

  /** If the loop ends after every first turn, it ends. */
  lemma EndsNext<W(!new)>(react: Reaction<W>, w: W, s: State)
    requires forall e :: Enabled(s, Fire(e)) ==> var (w', s') := Burst(react, w, s, e); Ends(react, w', s')
    ensures Ends(react, w, s)
  {
    var n := CommonBound(react, w, s, s.pending);
    assert EndsWithin(react, w, s, n + 1);
  }

  lemma {:induction false} CommonBound<W(!new)>(react: Reaction<W>, w: W, s: State, es: set<Event>) returns (n: nat)
    requires forall e :: Enabled(s, Fire(e)) ==> var (w', s') := Burst(react, w, s, e); Ends(react, w', s')
    ensures forall e :: e in es && Enabled(s, Fire(e)) ==>
              var (w', s') := Burst(react, w, s, e); EndsWithin(react, w', s', n)
    decreases |es|
  {
    n := 0;
    if es != {} {
      var e :| e in es;
      var m := CommonBound(react, w, s, es - {e});
      n := m;
      if Enabled(s, Fire(e)) {
        var (w1, s1) := Burst(react, w, s, e);
        var k :| EndsWithin(react, w1, s1, k);
        n := if k < m then m else k;
        EndsLater(react, w1, s1, k, n);
      }
      forall f | f in es && Enabled(s, Fire(f))
        ensures var (w', s') := Burst(react, w, s, f); EndsWithin(react, w', s', n)
      {
        if f != e {
          var (w', s') := Burst(react, w, s, f);
          EndsLater(react, w', s', m, n);
        }
      }
    }
  }

  // ----- ranks ---------------------------------------------------------------

  /** A set of configurations that the loop does not leave. */
  ghost predicate Closed<W(!new)>(react: Reaction<W>, inv: (W, State) -> bool) {
    forall w, s, e :: inv(w, s) && Enabled(s, Fire(e)) ==> var (w', s') := Burst(react, w, s, e); inv(w', s')
  }

  /** The rank goes down whenever a least due event fires. */
  ghost predicate Falls<W(!new)>(react: Reaction<W>, inv: (W, State) -> bool, rank: (W, State) -> nat) {
    forall w, s, e :: inv(w, s) && Enabled(s, Fire(e)) ==>
      var (w', s') := Burst(react, w, s, e); rank(w', s') < rank(w, s)
  }

  lemma {:induction false} RankBoundsTurns<W(!new)>(react: Reaction<W>, inv: (W, State) -> bool,
                                                    rank: (W, State) -> nat, w: W, s: State, n: nat)
    requires Closed(react, inv) && Falls(react, inv, rank) && inv(w, s) && rank(w, s) <= n
    ensures EndsWithin(react, w, s, n)
    decreases n
  {
    forall e | Enabled(s, Fire(e))
      ensures n > 0 && var (w', s') := Burst(react, w, s, e); EndsWithin(react, w', s', n - 1)
    {
      var (w', s') := Burst(react, w, s, e);
      RankBoundsTurns(react, inv, rank, w', s', n - 1);
    }
  }

  /** The number of turns that the loop makes at most. */
  ghost function Turns<W(!new)>(react: Reaction<W>, w: W, s: State): (n: nat)
    ensures Ends(react, w, s) ==> EndsWithin(react, w, s, n) && forall m: nat :: m < n ==> !EndsWithin(react, w, s, m)
  {
    if Ends(react, w, s) then
      var k :| EndsWithin(react, w, s, k);
      FirstBound(react, w, s, k)
    else 0
  }

  ghost function FirstBound<W(!new)>(react: Reaction<W>, w: W, s: State, k: nat): (n: nat)
    requires EndsWithin(react, w, s, k)
    ensures EndsWithin(react, w, s, n) && forall m: nat :: m < n ==> !EndsWithin(react, w, s, m)
  {
    if exists m: nat :: m < k && EndsWithin(react, w, s, m) then
      var m: nat :| m < k && EndsWithin(react, w, s, m);
      FirstBound(react, w, s, m)
    else k
  }

  lemma TurnsFall<W(!new)>(react: Reaction<W>, w: W, s: State, e: Event)
    requires Ends(react, w, s) && Enabled(s, Fire(e))
    ensures var (w', s') := Burst(react, w, s, e); Ends(react, w', s') && Turns(react, w', s') < Turns(react, w, s)
  {
    var (w', s') := Burst(react, w, s, e);
    assert EndsWithin(react, w', s', Turns(react, w, s) - 1);
  }

  /** Within a closed set of configurations the loop always ends exactly if some rank goes
      down with every turn. */
  lemma EndsIffRanked<W(!new)>(react: Reaction<W>, inv: (W, State) -> bool)
    requires Closed(react, inv)
    ensures (forall w, s :: inv(w, s) ==> Ends(react, w, s)) <==>
            exists rank: (W, State) -> nat :: Falls(react, inv, rank)
  {
    if forall w, s :: inv(w, s) ==> Ends(react, w, s) {
      var rank: (W, State) -> nat := (w, s) => Turns(react, w, s);
      forall w, s, e | inv(w, s) && Enabled(s, Fire(e))
        ensures var (w', s') := Burst(react, w, s, e); rank(w', s') < rank(w, s)
      {
        TurnsFall(react, w, s, e);
      }
      assert Falls(react, inv, rank);
    }
    if rank: (W, State) -> nat :| Falls(react, inv, rank) {
      forall w, s | inv(w, s) ensures Ends(react, w, s) {
        RankBoundsTurns(react, inv, rank, w, s, rank(w, s));
      }
    }
  }

  // ----- runs without end ----------------------------------------------------

  /** The configuration after n turns in which the given events fire. */
  ghost function At<W>(react: Reaction<W>, w: W, s: State, fires: nat -> Event, n: nat): (W, State) {
    if n == 0 then (w, s)
    else
      var (w', s') := At(react, w, s, fires, n - 1);
      Burst(react, w', s', fires(n - 1))
  }

  ghost predicate GoesOn<W>(react: Reaction<W>, w: W, s: State, fires: nat -> Event) {
    forall n: nat :: Enabled(At(react, w, s, fires, n).1, Fire(fires(n)))
  }

  lemma {:induction false} GoesOnPast<W(!new)>(react: Reaction<W>, w: W, s: State, fires: nat -> Event, k: nat, n: nat)
    requires GoesOn(react, w, s, fires)
    ensures var (w', s') := At(react, w, s, fires, k); !EndsWithin(react, w', s', n)
    decreases n
  {
    var (w', s') := At(react, w, s, fires, k);
    assert Enabled(At(react, w, s, fires, k).1, Fire(fires(k)));
    if n > 0 {
      GoesOnPast(react, w, s, fires, k + 1, n - 1);
      assert At(react, w, s, fires, k + 1) == Burst(react, w', s', fires(k));
    }
  }

  ghost predicate KeepsGoing<W(!new)>(react: Reaction<W>, w: W, s: State, e: Event) {
    Enabled(s, Fire(e)) && var (w', s') := Burst(react, w, s, e); !Ends(react, w', s')
  }

  /** An event that keeps the loop from ending. */
  ghost function Choice<W(!new)>(react: Reaction<W>, w: W, s: State): (e: Event)
    ensures !Ends(react, w, s) ==> KeepsGoing(react, w, s, e)
  {
    if Ends(react, w, s) then Event(0, 0, 0)
    else
      assert exists e :: KeepsGoing(react, w, s, e) by {
        if forall e :: !KeepsGoing(react, w, s, e) {
          forall e | Enabled(s, Fire(e)) ensures var (w', s') := Burst(react, w, s, e); Ends(react, w', s') {
            assert !KeepsGoing(react, w, s, e);
          }
          EndsNext(react, w, s);
        }
      }
      var e :| KeepsGoing(react, w, s, e); e
  }

  ghost function Follow<W(!new)>(react: Reaction<W>, w: W, s: State, n: nat): (c: (W, State))
    ensures !Ends(react, w, s) ==> !Ends(react, c.0, c.1)
  {
    if n == 0 then (w, s)
    else
      var (w', s') := Follow(react, w, s, n - 1);
      Burst(react, w', s', Choice(react, w', s'))
  }

  ghost function Chosen<W(!new)>(react: Reaction<W>, w: W, s: State, n: nat): Event {
    var (w', s') := Follow(react, w, s, n);
    Choice(react, w', s')
  }

  /** The loop ends, whichever of several least events fires first, exactly if there is no run
      in which it goes on for ever. */
  lemma EndsIff<W(!new)>(react: Reaction<W>, w: W, s: State)
    ensures Ends(react, w, s) <==> !exists fires: nat -> Event :: GoesOn(react, w, s, fires)
  {
    hide Burst, Enabled, Follow;
    if Ends(react, w, s) {
      if fires: nat -> Event :| GoesOn(react, w, s, fires) {
        var n :| EndsWithin(react, w, s, n);
        GoesOnPast(react, w, s, fires, 0, n);
      }
    } else {
      var fires: nat -> Event := (n: nat) => Chosen(react, w, s, n);
      forall n: nat ensures Enabled(At(react, w, s, fires, n).1, Fire(fires(n))) {
        FollowIs(react, w, s, fires, n);
        var (w', s') := Follow(react, w, s, n);
        assert KeepsGoing(react, w', s', Choice(react, w', s'));
      }
      assert GoesOn(react, w, s, fires);
    }
  }

  lemma {:induction false} FollowIs<W(!new)>(react: Reaction<W>, w: W, s: State, fires: nat -> Event, n: nat)
    requires forall m: nat :: fires(m) == Chosen(react, w, s, m)
    ensures At(react, w, s, fires, n) == Follow(react, w, s, n)
  {
    hide Burst;
    if n > 0 {
      FollowIs(react, w, s, fires, n - 1);
    }
  }

  // ----- callbacks that wait when they are on time ---------------------------

  /** An event that fires on time schedules nothing without delay. */
  ghost predicate Patient<W(!new)>(react: Reaction<W>) {
    forall w, s, e :: NoneAtOnce(react(w, s, e, 0).1)
  }

  ghost function Due(s: State): set<Event> {
    set e | e in s.pending && e.timestamp <= s.now
  }

  ghost function Overdue(s: State): set<Event> {
    set e | e in s.pending && e.timestamp < s.now
  }

  lemma BurstShrinks<W(!new)>(react: Reaction<W>, w: W, s: State, e: Event)
    requires Patient(react) && Enabled(s, Fire(e))
    ensures var s' := Burst(react, w, s, e).1;
            && Overdue(s') <= Overdue(s)
            && (e.timestamp < s.now ==> Overdue(s') < Overdue(s))
            && (e.timestamp == s.now ==> Due(s') < Due(s))
  {
    var s1 := Apply(s, Fire(e));
    ActAllKeeps(s1, react(w, s1, e, Lateness(s1, e)).1);
    assert e in Due(s) && (e.timestamp < s.now ==> e in Overdue(s));
    RemovedByActs(s1, react(w, s1, e, Lateness(s1, e)).1, e);
  }

  lemma {:induction false} RemovedByActs(s: State, acts: seq<Action>, e: Event)
    requires e !in s.pending
    ensures e in ActAll(s, acts).pending ==> s.now <= e.timestamp && (NoneAtOnce(acts) ==> s.now < e.timestamp)
  {
    ActAllKeeps(s, acts);
  }

  /** With such callbacks the loop ends, however many events one of them schedules, in
      every state of the scheduler. */
  lemma {:induction false} PatientEnds<W(!new)>(react: Reaction<W>, w: W, s: State)
    requires Patient(react)
    ensures Ends(react, w, s)
    decreases |Overdue(s)|, |Due(s)|
  {
    forall e | Enabled(s, Fire(e)) ensures var (w', s') := Burst(react, w, s, e); Ends(react, w', s') {
      var (w', s') := Burst(react, w, s, e);
      BurstShrinks(react, w, s, e);
      SubsetSize(Overdue(s'), Overdue(s));
      if e.timestamp == s.now {
        SubsetSize(Due(s'), Due(s));
      }
      PatientEnds(react, w', s');
    }
    EndsNext(react, w, s);
  }

  // ----- periodic callbacks --------------------------------------------------

  const TWO32: nat := 0x1_0000_0000

  /** The delay with which a periodic event is scheduled again: a 32-bit subtraction. */
  function NextDelay(period: nat, late: nat): nat {
    (period - late) % TWO32
  }

  /** Callbacks that schedule after a period less what they are late, with any period each
      time, on whatever the state of the machine is. */
  ghost predicate Periodic<W(!new)>(react: Reaction<W>) {
    forall w, s, e, late :: ByPeriods(react(w, s, e, late).1, late)
  }

  ghost predicate ByPeriods(acts: seq<Action>, late: nat) {
    forall i :: 0 <= i < |acts| ==> acts[i].Add? ==> IsPeriodic(acts[i].delay, late)
  }

  ghost predicate IsPeriodic(delay: nat, late: nat) {
    exists period: nat :: 0 < period < TWO32 && delay == NextDelay(period, late)
  }

  /** Periodic callbacks let the loop end, also when one is late by its whole period. */
  lemma PeriodicEnds<W(!new)>(react: Reaction<W>, w: W, s: State)
    requires Periodic(react)
    ensures Ends(react, w, s)
  {
    forall w, s, e ensures NoneAtOnce(react(w, s, e, 0).1) {
      var acts := react(w, s, e, 0).1;
      assert ByPeriods(acts, 0);
      forall i | 0 <= i < |acts| && acts[i].Add? ensures acts[i].delay > 0 {
        assert IsPeriodic(acts[i].delay, 0);
        var period: nat :| 0 < period < TWO32 && acts[i].delay == NextDelay(period, 0);
      }
    }
    PatientEnds(react, w, s);
  }

  /** The next event is due one period after this one exactly as long as this one is late by
      no more than the period. */
  lemma PeriodKeepsGrid(period: nat, timestamp: nat, now: nat)
    requires 0 < period < TWO32 && timestamp <= now && now - timestamp < TWO32
    ensures now + NextDelay(period, now - timestamp) == timestamp + period <==> now - timestamp <= period
  {
    var late := now - timestamp;
    if late <= period {
      assert NextDelay(period, late) == period - late;
    } else {
      assert NextDelay(period, late) == period - late + TWO32;
    }
  }

  // ----- callbacks that never wait -------------------------------------------

  /** Whatever fires, something is scheduled at once. */
  ghost predicate Impatient<W(!new)>(react: Reaction<W>) {
    forall w, s, e, late :: LastAtOnce(react(w, s, e, late).1)
  }

  ghost predicate LastAtOnce(acts: seq<Step>) {
    acts != [] && acts[|acts| - 1].Add? && acts[|acts| - 1].delay == 0
  }

  lemma {:induction false} LeastExists(es: set<Event>) returns (e: Event)
    requires es != {}
    ensures Least(e, es)
    decreases |es|
  {
    e :| e in es;
    if es - {e} != {} {
      var f := LeastExists(es - {e});
      assert forall g <- es :: g == e || g in es - {e};
      if f.timestamp < e.timestamp {
        e := f;
      }
    } else {
      assert es == {e};
    }
  }

  /** With such callbacks the loop never ends once something is due. */
  lemma {:induction false} ImpatientNeverEnds<W(!new)>(react: Reaction<W>, w: W, s: State, n: nat)
    requires Impatient(react) && Due(s) != {}
    ensures !EndsWithin(react, w, s, n)
    decreases n
  {
    var d :| d in Due(s);
    var e := LeastExists(s.pending);
    assert e.timestamp <= d.timestamp <= s.now;
    assert Enabled(s, Fire(e));
    if n > 0 {
      var s1 := Apply(s, Fire(e));
      var acts := react(w, s1, e, Lateness(s1, e)).1;
      var t: Step := acts[|acts| - 1];
      var init := ActAll(s1, acts[..|acts| - 1]);
      ActAllKeeps(s1, acts[..|acts| - 1]);
      var (w', s') := Burst(react, w, s, e);
      assert s' == Apply(init, t) && Scheduled(init, t) in Due(s');
      ImpatientNeverEnds(react, w', s', n - 1);
    }
  }

  // ----- waiting for the next event ------------------------------------------

  lemma {:induction false} UnrollGrows<W(!new)>(react: Reaction<W>, h: seq<Step>, w: W, fired: seq<Event>, k: nat)
    requires k <= |fired|
    ensures Unroll(react, h, w, fired[..k]).0 <= Unroll(react, h, w, fired).0
  {
    if k == |fired| {
      assert fired[..k] == fired;
    } else {
      var init := fired[..|fired| - 1];
      UnrollGrows(react, h, w, init, k);
      assert init[..k] == fired[..k];
    }
  }

  /** Advancing by the cycles that remain until the next event: an event does fire, the first
      one with no lateness, and it is the one that was to be next, or one of the same time. */
  lemma WakesOnTime<W(!new)>(react: Reaction<W>, h: seq<Step>, w: W, e: Event, fired: seq<Event>)
    requires Proper(h) && NoneOverdue(After(h)) && Least(e, After(h).pending)
    requires var h' := Unroll(react, h + [Tick(e.timestamp - After(h).now)], w, fired).0;
             Proper(h') && NoneDue(After(h'))
    ensures fired != [] && Least(fired[0], After(h).pending)
    ensures fired[0].timestamp == e.timestamp == After(h + [Tick(e.timestamp - After(h).now)]).now
  {
    hide After, Proper, Burst;
    var t := Tick(e.timestamp - After(h).now);
    var h1 := h + [t];
    Snoc(h, t);
    assert e in After(h1).pending && e.timestamp == After(h1).now;
    if fired != [] {
      var h' := Unroll(react, h1, w, fired).0;
      UnrollGrows(react, h1, w, fired, 1);
      assert fired[..1] == [fired[0]] && fired[..1][..0] == [];
      var h2 := BurstSteps(react, h1, w, fired[0]).0;
      assert Unroll(react, h1, w, fired[..1]) == BurstSteps(react, h1, w, fired[0]);
      assert h1 + [Fire(fired[0])] <= h2 <= h';
      ProperPrefix(h', |h1| + 1);
      assert h'[..|h1| + 1] == h1 + [Fire(fired[0])];
      Snoc(h1, Fire(fired[0]));
    }
  }
}
