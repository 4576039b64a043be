/** Callbacks that schedule one another after fixed periods less what they are late, such as the
    two phases of a display line: over whole runs their events stay on a grid of times. */
module Grid {
  import opened Events
  import opened Callbacks

  /** Which callback comes after one, and how long after. */
  datatype Link = Link(next: int, period: nat)

  type Chain = map<int, Link>

  ghost predicate Linked(chain: Chain) {
    forall c <- chain :: chain[c].next in chain
  }

  /** All periods are 32-bit numbers and at least as long as the longest advance of the clock. */
  ghost predicate Outlasts(chain: Chain, longest: nat) {
    forall c <- chain :: longest <= chain[c].period && 0 < chain[c].period < TWO32
  }

  ghost predicate NonePending(chain: Chain, s: State) {
    forall f <- s.pending :: f.callback !in chain
  }

  /** Of the events of the chain, e alone is pending. */
  ghost predicate OnePending(chain: Chain, s: State, e: Event) {
    e in s.pending && e.callback in chain && e.handle <= s.last && forall f <- s.pending - {e} :: f.callback !in chain
  }

  /** An action that has nothing to do with the chain. */
  ghost predicate Foreign(chain: Chain, s: State, t: Step) {
    match t
    case Add(_, callback) => callback !in chain
    case Remove(handle) => handle <= s.last && forall f <- s.pending :: f.callback in chain ==> f.handle != handle
    case _ => false
  }

  ghost predicate AllForeign(chain: Chain, s: State, acts: seq<Action>) {
    forall i :: 0 <= i < |acts| ==> Foreign(chain, s, acts[i])
  }

  /** One of the actions schedules the next event of the chain, earlier by what this one is late. */
  ghost predicate OneNext(chain: Chain, s: State, link: Link, late: nat, acts: seq<Action>) {
    exists i :: 0 <= i < |acts| && SchedulesNext(acts[i], link, late) &&
                AllForeign(chain, s, acts[..i]) && AllForeign(chain, s, acts[i + 1..])
  }

  ghost predicate SchedulesNext(t: Action, link: Link, late: nat) {
    t == Add(NextDelay(link.period, late), link.next)
  }

  /** Callbacks of the chain schedule the next one, and all others leave the chain alone. */
  ghost predicate KeepsTime<W(!new)>(react: Reaction<W>, chain: Chain) {
    forall w, s, e: Event, late ::
      if e.callback in chain then OneNext(chain, s, chain[e.callback], late, react(w, s, e, late).1)
      else AllForeign(chain, s, react(w, s, e, late).1)
  }

  // ----- one event -----------------------------------------------------------

  lemma {:induction false} ForeignLeaves(chain: Chain, s: State, acts: seq<Action>, seen: State)
    requires AllForeign(chain, seen, acts) && seen.last <= s.last
    ensures NonePending(chain, s) ==> NonePending(chain, ActAll(s, acts))
    ensures forall e :: OnePending(chain, s, e) && (e in seen.pending || seen.last < e.handle) ==>
              OnePending(chain, ActAll(s, acts), e)
    ensures ActAll(s, acts).now == s.now && s.last <= ActAll(s, acts).last
  {
    if acts != [] {
      var init, t := acts[..|acts| - 1], acts[|acts| - 1];
      ForeignLeaves(chain, s, init, seen);
      assert Foreign(chain, seen, t);
    }
  }

  lemma {:induction false} ActAllConcat(s: State, a: seq<Step>, b: seq<Step>)
    ensures ActAll(s, a + b) == ActAll(ActAll(s, a), b)
  {
    if b == [] {
      assert a + b == a;
    } else {
      var c := a + b;
      assert c[..|c| - 1] == a + b[..|b| - 1] && c[|c| - 1] == b[|b| - 1];
      ActAllConcat(s, a, b[..|b| - 1]);
    }
  }

  lemma NextPending(chain: Chain, s: State, link: Link, late: nat, acts: seq<Action>) returns (e: Event)
    requires NonePending(chain, s) && OneNext(chain, s, link, late, acts) && link.next in chain
    ensures OnePending(chain, ActAll(s, acts), e)
    ensures e.callback == link.next && e.timestamp == s.now + NextDelay(link.period, late)
  {
    hide AllForeign, NonePending;
    var i :| 0 <= i < |acts| && SchedulesNext(acts[i], link, late) &&
      AllForeign(chain, s, acts[..i]) && AllForeign(chain, s, acts[i + 1..]);
    var t: Step := acts[i];
    var s1 := ActAll(s, acts[..i]);
    ForeignLeaves(chain, s, acts[..i], s);
    e := Scheduled(s1, t);
    var s2 := Apply(s1, t);
    Joins(chain, s1, t);
    ForeignLeaves(chain, s2, acts[i + 1..], s);
    assert acts == (acts[..i] + [t]) + acts[i + 1..];
    ActAllConcat(s, acts[..i] + [t], acts[i + 1..]);
    ActAllConcat(s, acts[..i], [t]);
    assert [t][..0] == [];
    assert ActAll(s1, [t]) == s2;
  }

  lemma Joins(chain: Chain, s: State, t: Step)
    requires NonePending(chain, s) && t.Add? && t.callback in chain
    ensures OnePending(chain, Apply(s, t), Scheduled(s, t))
  {
  }

  lemma Leaves(chain: Chain, s: State, e: Event, f: Event)
    requires OnePending(chain, s, e)
    ensures f == e ==> NonePending(chain, Apply(s, Fire(f)))
    ensures f != e ==> OnePending(chain, Apply(s, Fire(f)), e)
    ensures f in s.pending && f.callback in chain ==> f == e
  {
  }

  /** When an event of the chain fires, the next one becomes due one period after it, whatever the
      clock says, exactly if this is no later than the period is long; other events do not move it. */
  lemma NextOnGrid<W(!new)>(react: Reaction<W>, chain: Chain, h: seq<Step>, w: W, e: Event, f: Event)
    returns (next: Event)
    requires KeepsTime(react, chain) && Linked(chain) && OnePending(chain, After(h), e)
    requires Enabled(After(h), Fire(f)) && Outlasts(chain, 0) && After(h).now - f.timestamp < TWO32
    ensures OnePending(chain, After(BurstSteps(react, h, w, f).0), next)
    ensures f.callback in chain <==> f == e
    ensures f != e ==> next == e
    ensures f == e ==>
              && next.callback == chain[e.callback].next
              && (next.timestamp == e.timestamp + chain[e.callback].period <==>
                    After(h).now - e.timestamp <= chain[e.callback].period)
  {
    hide After, AllForeign, OneNext, NonePending, OnePending, ActAll;
    Snoc(h, Fire(f));
    var s := After(h + [Fire(f)]);
    var acts := react(w, s, f, Lateness(s, f)).1;
    AfterActs(h + [Fire(f)], acts);
    Leaves(chain, After(h), e, f);
    IsMember(chain, After(h), e);
    if f == e {
      var link := chain[e.callback];
      next := NextPending(chain, s, link, Lateness(s, e), acts);
      PeriodKeepsGrid(link.period, e.timestamp, s.now);
    } else {
      next := e;
      IsMember(chain, s, e);
      ForeignLeaves(chain, s, acts, s);
    }
  }

  lemma IsMember(chain: Chain, s: State, e: Event)
    requires OnePending(chain, s, e)
    ensures e in s.pending && e.callback in chain
  {
  }

  // ----- whole runs ----------------------------------------------------------

  /** The clock is moved on and events fire, or the rest of the machine acts meanwhile. */
  datatype Call<W> = Advance(cycles: nat, fired: seq<Event>) | Meanwhile(world: W, act: Action)

  ghost function Drive<W>(react: Reaction<W>, h: seq<Step>, w: W, calls: seq<Call<W>>): (seq<Step>, W) {
    if calls == [] then (h, w)
    else
      var (h', w') := Drive(react, h, w, calls[..|calls| - 1]);
      match calls[|calls| - 1]
      case Advance(cycles, fired) => Unroll(react, h' + [Tick(cycles)], w', fired)
      case Meanwhile(world, act) => (h' + [act], world)
  }

  /** No advance is longer than the given number of cycles, and nothing that happens in between
      concerns the chain. */
  ghost predicate Undisturbed<W>(react: Reaction<W>, chain: Chain, longest: nat, h: seq<Step>, w: W,
                                 calls: seq<Call<W>>)
  {
    calls == [] ||
    (&& Undisturbed(react, chain, longest, h, w, calls[..|calls| - 1])
     && match calls[|calls| - 1]
        case Advance(cycles, _) => cycles <= longest
        case Meanwhile(_, act) => Foreign(chain, After(Drive(react, h, w, calls[..|calls| - 1]).0), act))
  }

  /** The events of the chain among those fired, in their order. */
  ghost function OfChain(chain: Chain, fired: seq<Event>): seq<Event> {
    if fired == [] then []
    else
      var init, e := fired[..|fired| - 1], fired[|fired| - 1];
      OfChain(chain, init) + if e.callback in chain then [e] else []
  }

  ghost function Firings<W>(chain: Chain, calls: seq<Call<W>>): seq<Event> {
    if calls == [] then []
    else
      var init, c := calls[..|calls| - 1], calls[|calls| - 1];
      Firings(chain, init) + if c.Advance? then OfChain(chain, c.fired) else []
  }

  /** The callback and the time of the k-th event from e on. */
  ghost function CallbackAt(chain: Chain, e: Event, k: nat): (c: int)
    requires Linked(chain) && e.callback in chain
    ensures c in chain
  {
    if k == 0 then e.callback else chain[CallbackAt(chain, e, k - 1)].next
  }

  ghost function TimeAt(chain: Chain, e: Event, k: nat): nat
    requires Linked(chain) && e.callback in chain
  {
    if k == 0 then e.timestamp
    else TimeAt(chain, e, k - 1) + chain[CallbackAt(chain, e, k - 1)].period
  }

  ghost predicate OnGrid(chain: Chain, first: Event, e: Event, k: nat)
    requires Linked(chain) && first.callback in chain
  {
    e.callback == CallbackAt(chain, first, k) && e.timestamp == TimeAt(chain, first, k)
  }

  ghost predicate AllOnGrid(chain: Chain, first: Event, fired: seq<Event>, from: nat)
    requires Linked(chain) && first.callback in chain
  {
    forall k :: 0 <= k < |fired| ==> OnGrid(chain, first, fired[k], from + k)
  }

  lemma {:induction false} OnGridFromNext(chain: Chain, first: Event, e: Event, next: Event, k: nat)
    requires Linked(chain) && first.callback in chain && OnGrid(chain, first, e, k)
    requires next.callback == chain[e.callback].next && next.timestamp == e.timestamp + chain[e.callback].period
    ensures OnGrid(chain, first, next, k + 1)
  {
  }

  lemma FiringsOnGrid(chain: Chain, first: Event, a: seq<Event>, b: seq<Event>, from: nat)
    requires Linked(chain) && first.callback in chain && AllOnGrid(chain, first, a, from)
    requires AllOnGrid(chain, first, b, from + |a|)
    ensures AllOnGrid(chain, first, a + b, from)
  {
    hide OnGrid;
    forall k | 0 <= k < |a + b| ensures OnGrid(chain, first, (a + b)[k], from + k) {
      if k >= |a| {
        assert OnGrid(chain, first, b[k - |a|], from + |a| + (k - |a|));
      }
    }
  }

  /** While what is due fires, the clock stands: no event of the chain is then later than the
      advance was long. */
  lemma {:induction false} FiringsKeepTime<W(!new)>(react: Reaction<W>, chain: Chain, longest: nat, first: Event,
                                                    h: seq<Step>, w: W, fired: seq<Event>, e: Event, k: nat)
    returns (next: Event)
    requires KeepsTime(react, chain) && Linked(chain) && Outlasts(chain, longest) && first.callback in chain
    requires OnePending(chain, After(h), e) && OnGrid(chain, first, e, k)
    requires Proper(Unroll(react, h, w, fired).0) && LastTick(h) <= longest
    ensures var h' := Unroll(react, h, w, fired).0;
            LastTick(h') == LastTick(h) && OnePending(chain, After(h'), next)
    ensures AllOnGrid(chain, first, OfChain(chain, fired), k)
    ensures OnGrid(chain, first, next, k + |OfChain(chain, fired)|)
  {
    hide After, Proper, OnePending, OnGrid, KeepsTime, Outlasts, Enabled, BurstSteps;
    if fired == [] {
      next := e;
    } else {
      var init, f := fired[..|fired| - 1], fired[|fired| - 1];
      var (h1, w1) := Unroll(react, h, w, init);
      BurstProper(react, h1, w1, f);
      var e1 := FiringsKeepTime(react, chain, longest, first, h, w, init, e, k);
      InTime(chain, longest, h1, e1, f);
      next := NextOnGrid(react, chain, h1, w1, e1, f);
      var n := k + |OfChain(chain, init)|;
      if f == e1 {
        OnGridFromNext(chain, first, e1, next, n);
        OneOnGrid(chain, first, e1, n);
        FiringsOnGrid(chain, first, OfChain(chain, init), [e1], k);
      }
    }
  }

  lemma BurstProper<W(!new)>(react: Reaction<W>, h: seq<Step>, w: W, f: Event)
    requires Proper(BurstSteps(react, h, w, f).0)
    ensures Proper(h) && Enabled(After(h), Fire(f)) && LastTick(BurstSteps(react, h, w, f).0) == LastTick(h)
  {
    hide After, Proper;
    var h1, h2 := h + [Fire(f)], BurstSteps(react, h, w, f).0;
    ProperPrefix(h2, |h1|);
    assert h2[..|h1|] == h1;
    Snoc(h, Fire(f));
    LastTickActs(h1, react(w, After(h1), f, Lateness(After(h1), f)).1);
  }

  lemma OneOnGrid(chain: Chain, first: Event, e: Event, k: nat)
    requires Linked(chain) && first.callback in chain && OnGrid(chain, first, e, k)
    ensures AllOnGrid(chain, first, [e], k)
  {
  }

  lemma InTime(chain: Chain, longest: nat, h: seq<Step>, e: Event, f: Event)
    requires Linked(chain) && Outlasts(chain, longest) && OnePending(chain, After(h), e)
    requires Proper(h) && LastTick(h) <= longest
    requires Enabled(After(h), Fire(f))
    ensures e.callback in chain && After(h).now - e.timestamp <= chain[e.callback].period && Outlasts(chain, 0)
    ensures After(h).now - f.timestamp < TWO32
  {
    PendingIsRecent(h);
  }

  lemma {:induction false} LastTickActs(h: seq<Step>, acts: seq<Action>)
    ensures LastTick(h + acts) == LastTick(h)
  {
    if acts == [] {
      assert h + acts == h;
    } else {
      var init := acts[..|acts| - 1];
      assert (h + acts)[..|h + acts| - 1] == h + init;
      LastTickActs(h, init);
    }
  }

  lemma TickOn(chain: Chain, h: seq<Step>, cycles: nat, e: Event)
    requires OnePending(chain, After(h), e)
    ensures var h' := h + [Tick(cycles)]; OnePending(chain, After(h'), e) && LastTick(h') == cycles
  {
    hide After;
    Snoc(h, Tick(cycles));
  }

  lemma TickProper<W(!new)>(react: Reaction<W>, h: seq<Step>, w: W, cycles: nat, fired: seq<Event>)
    requires Proper(Unroll(react, h + [Tick(cycles)], w, fired).0)
    ensures Proper(h)
  {
    hide After, Proper;
    var t := Tick(cycles);
    UnrollGrows(react, h + [t], w, fired, 0);
    assert fired[..0] == [];
    var h' := Unroll(react, h + [t], w, fired).0;
    ProperPrefix(h', |h|);
    assert h'[..|h|] == h;
  }

  lemma ActsMeanwhile(chain: Chain, h: seq<Step>, act: Action, e: Event)
    requires OnePending(chain, After(h), e) && Foreign(chain, After(h), act)
    ensures OnePending(chain, After(h + [act]), e)
  {
    hide After;
    Snoc(h, act);
  }

  lemma StartsOnGrid(chain: Chain, s: State, first: Event)
    requires Linked(chain) && OnePending(chain, s, first)
    ensures first.callback in chain && OnGrid(chain, first, first, 0)
  {
  }

  /** Over any run of advances that are no longer than the periods, with anything else going on
      in between, the events of a chain keep to their grid: the k-th to fire is the k-th of the
      grid, and the one after the last that fired is pending. */
  lemma {:induction false} RunsKeepTime<W(!new)>(react: Reaction<W>, chain: Chain, longest: nat, first: Event,
                                                 h: seq<Step>, w: W, calls: seq<Call<W>>)
    returns (next: Event)
    requires KeepsTime(react, chain) && Linked(chain) && Outlasts(chain, longest)
    requires OnePending(chain, After(h), first) && first.callback in chain
    requires Proper(Drive(react, h, w, calls).0) && Undisturbed(react, chain, longest, h, w, calls)
    ensures AllOnGrid(chain, first, Firings(chain, calls), 0)
    ensures OnePending(chain, After(Drive(react, h, w, calls).0), next)
    ensures OnGrid(chain, first, next, |Firings(chain, calls)|)
  {
    hide After, Proper, KeepsTime, Outlasts, OnGrid, Unroll, OnePending, Foreign;
    if calls == [] {
      next := first;
      StartsOnGrid(chain, After(h), first);
    } else {
      var init := calls[..|calls| - 1];
      var (h1, w1) := Drive(react, h, w, init);
      var n := |Firings(chain, init)|;
      match calls[|calls| - 1] {
        case Advance(cycles, fired) =>
          TickProper(react, h1, w1, cycles, fired);
          var e := RunsKeepTime(react, chain, longest, first, h, w, init);
          TickOn(chain, h1, cycles, e);
          next := FiringsKeepTime(react, chain, longest, first, h1 + [Tick(cycles)], w1, fired, e, n);
          FiringsOnGrid(chain, first, Firings(chain, init), OfChain(chain, fired), 0);
        case Meanwhile(_, act) =>
          Snoc(h1, act);
          next := RunsKeepTime(react, chain, longest, first, h, w, init);
          ActsMeanwhile(chain, h1, act, next);
      }
    }
  }

  /** The events of the chain that fired in a history, in their order. */
  ghost function FiredIn(chain: Chain, h: seq<Step>): seq<Event> {
    if h == [] then []
    else
      var init, t := h[..|h| - 1], h[|h| - 1];
      FiredIn(chain, init) + if t.Fire? && t.event.callback in chain then [t.event] else []
  }

  lemma {:induction false} FiredInActs(chain: Chain, h: seq<Step>, acts: seq<Action>)
    ensures FiredIn(chain, h + acts) == FiredIn(chain, h)
  {
    if acts == [] {
      assert h + acts == h;
    } else {
      var init := acts[..|acts| - 1];
      assert (h + acts)[..|h + acts| - 1] == h + init;
      FiredInActs(chain, h, init);
    }
  }

  lemma FiredInSnoc(chain: Chain, h: seq<Step>, t: Step)
    ensures FiredIn(chain, h + [t]) ==
            FiredIn(chain, h) + if t.Fire? && t.event.callback in chain then [t.event] else []
  {
    assert (h + [t])[..|h|] == h;
  }

  lemma {:induction false} FiredInUnroll<W(!new)>(react: Reaction<W>, chain: Chain, h: seq<Step>, w: W,
                                                  fired: seq<Event>)
    ensures FiredIn(chain, Unroll(react, h, w, fired).0) == FiredIn(chain, h) + OfChain(chain, fired)
  {
    if fired != [] {
      hide After, FiredIn;
      var init, f := fired[..|fired| - 1], fired[|fired| - 1];
      FiredInUnroll(react, chain, h, w, init);
      var (h1, w1) := Unroll(react, h, w, init);
      var s := After(h1 + [Fire(f)]);
      FiredInSnoc(chain, h1, Fire(f));
      FiredInActs(chain, h1 + [Fire(f)], react(w1, s, f, Lateness(s, f)).1);
    }
  }

  /** What the calls fired is what the history says. */
  lemma {:induction false} FiredInDrive<W(!new)>(react: Reaction<W>, chain: Chain, h: seq<Step>, w: W,
                                                 calls: seq<Call<W>>)
    ensures FiredIn(chain, Drive(react, h, w, calls).0) == FiredIn(chain, h) + Firings(chain, calls)
  {
    if calls != [] {
      hide Unroll, FiredIn;
      var init := calls[..|calls| - 1];
      FiredInDrive(react, chain, h, w, init);
      var (h1, w1) := Drive(react, h, w, init);
      match calls[|calls| - 1] {
        case Advance(cycles, fired) =>
          FiredInSnoc(chain, h1, Tick(cycles));
          FiredInUnroll(react, chain, h1 + [Tick(cycles)], w1, fired);
        case Meanwhile(_, act) =>
          FiredInSnoc(chain, h1, act);
      }
    }
  }

  lemma {:induction false} FiredInIsDue(chain: Chain, h: seq<Step>)
    requires Proper(h)
    ensures forall e <- FiredIn(chain, h) :: e.timestamp <= After(h).now
  {
    if h != [] {
      FiredInIsDue(chain, h[..|h| - 1]);
    }
  }

  /** Between calls exactly those events of the chain have fired whose times on the grid have
      come, each at its time on the grid. */
  lemma FiresOnGrid<W(!new)>(react: Reaction<W>, chain: Chain, longest: nat, first: Event,
                             h: seq<Step>, w: W, calls: seq<Call<W>>)
    returns (n: nat)
    requires KeepsTime(react, chain) && Linked(chain) && Outlasts(chain, longest)
    requires OnePending(chain, After(h), first) && first.callback in chain
    requires Undisturbed(react, chain, longest, h, w, calls)
    requires var h' := Drive(react, h, w, calls).0; Proper(h') && NoneDue(After(h'))
    ensures var h' := Drive(react, h, w, calls).0;
            && |FiredIn(chain, h')| == |FiredIn(chain, h)| + n
            && FiredIn(chain, h) <= FiredIn(chain, h')
            && AllOnGrid(chain, first, FiredIn(chain, h')[|FiredIn(chain, h)|..], 0)
            && After(h').now < TimeAt(chain, first, n)
            && (n > 0 ==> TimeAt(chain, first, n - 1) <= After(h').now)
  {
    hide After, Proper, KeepsTime, Outlasts, Drive, FiredIn, Undisturbed;
    var h' := Drive(react, h, w, calls).0;
    var next := RunsKeepTime(react, chain, longest, first, h, w, calls);
    FiredInDrive(react, chain, h, w, calls);
    FiredInIsDue(chain, h');
    IsMember(chain, After(h'), next);
    var firings := Firings(chain, calls);
    n := |firings|;
    assert FiredIn(chain, h')[|FiredIn(chain, h)|..] == firings;
    if n > 0 {
      assert OnGrid(chain, first, firings[n - 1], 0 + (n - 1));
      assert firings[n - 1] in FiredIn(chain, h');
    }
  }

  /** The grid of a callback that schedules itself again after a fixed period. */
  lemma {:induction false} SinglePeriod(chain: Chain, e: Event, period: nat, k: nat)
    requires Linked(chain) && chain == map[e.callback := Link(e.callback, period)]
    ensures TimeAt(chain, e, k) == e.timestamp + k * period
  {
    if k > 0 {
      SinglePeriod(chain, e, period, k - 1);
      assert CallbackAt(chain, e, k - 1) == e.callback;
      assert k * period == (k - 1) * period + period;
    }
  }

  /** The grid of two callbacks that schedule each other, as the two phases of a line do: a line
      is as long as both together. */
  lemma {:induction false} TwoPhases(chain: Chain, e: Event, other: int, p: nat, q: nat, k: nat)
    requires Linked(chain) && other != e.callback
    requires chain == map[e.callback := Link(other, p), other := Link(e.callback, q)]
    ensures TimeAt(chain, e, 2 * k) == e.timestamp + k * (p + q)
    ensures TimeAt(chain, e, 2 * k + 1) == e.timestamp + k * (p + q) + p
    ensures CallbackAt(chain, e, 2 * k) == e.callback && CallbackAt(chain, e, 2 * k + 1) == other
  {
    if k > 0 {
      TwoPhases(chain, e, other, p, q, k - 1);
      assert k * (p + q) == (k - 1) * (p + q) + (p + q);
      assert 2 * k - 1 == 2 * (k - 1) + 1;
    }
  }
}
