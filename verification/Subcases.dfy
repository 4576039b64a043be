/** The driver that runs a test body again and again until all of its subcases have
    been entered, one path per run. */
module Subcases {
  datatype Signature = Signature(name: string, file: string, line: int)

  /** A subcase and the subcases that its body reaches, in order. */
  datatype Tree = Node(sig: Signature, children: seq<Tree>)

  type Path = seq<Signature>

  // ----- the leaves of a test body -------------------------------------------

  function Leaves(f: seq<Tree>): (n: nat)
    ensures f != [] ==> 0 < n
  {
    if f == [] then 0 else LeavesOf(f[0]) + Leaves(f[1..])
  }

  function LeavesOf(t: Tree): (n: nat)
    ensures 0 < n
  {
    if t.children == [] then 1 else Leaves(t.children)
  }

  /** The path to every leaf, in depth-first order. */
  function LeafPaths(f: seq<Tree>, base: Path): (ps: seq<Path>)
    ensures |ps| == Leaves(f)
  {
    if f == [] then [] else LeafPathsOf(f[0], base) + LeafPaths(f[1..], base)
  }

  function LeafPathsOf(t: Tree, base: Path): (ps: seq<Path>)
    ensures |ps| == LeavesOf(t)
  {
    if t.children == [] then [base + [t.sig]] else LeafPaths(t.children, base + [t.sig])
  }

  // ----- the visits of a test body -------------------------------------------

  /** A run leads down a path; it is idle if it finds nothing at the end that it could enter,
      but only what has the signature of an earlier sibling. */
  datatype Visit = Visit(path: Path, idle: bool)

  /** The runs that a body takes, in their order. */
  function Visits(f: seq<Tree>, base: Path): (vs: seq<Visit>)
    ensures vs != []
    decreases f, 1
  {
    if f == [] then [Visit(base, false)] else VisitsAmong(f, base, {})
  }

  /** The same for the siblings behind some whose signatures have been seen: a subcase with such
      a signature is passed over, and if it is the last one that takes an idle run. */
  function VisitsAmong(f: seq<Tree>, base: Path, seen: set<Signature>): (vs: seq<Visit>)
    ensures vs == [] <==> f == []
    decreases f, 0
  {
    if f == [] then []
    else if f[0].sig !in seen then VisitsOf(f[0], base) + VisitsAmong(f[1..], base, seen + {f[0].sig})
    else if |f| == 1 then [Visit(base, true)]
    else VisitsAmong(f[1..], base, seen)
  }

  function VisitsOf(t: Tree, base: Path): (vs: seq<Visit>)
    ensures vs != []
    decreases t, 2
  {
    Visits(t.children, base + [t.sig])
  }

  /** Siblings have different signatures, all the way down. */
  predicate DistinctSiblings(f: seq<Tree>) {
    f == [] ||
    ((forall i :: 1 <= i < |f| ==> f[i].sig != f[0].sig) && DistinctSiblings(f[0].children) && DistinctSiblings(f[1..]))
  }

  /** The stacks on the way to a leaf below base. */
  function Steps(p: Path, base: nat): seq<Path>
    requires base <= |p|
  {
    seq(|p| - base, i requires 0 <= i < |p| - base => p[..base + i + 1])
  }

  // ----- one run, as a function ----------------------------------------------

  datatype State = State(stack: Path, passed: set<Path>, maxLevel: nat, reenter: bool, log: seq<Path>)

  /** The constructor of a subcase; true if it is entered. */
  function Enter(st: State, sig: Signature): (State, bool) {
    var p := st.stack + [sig];
    if |st.stack| < st.maxLevel then (st.(reenter := true), false)
    else if p in st.passed then (st, false)
    else (st.(stack := p, maxLevel := |p|, log := st.log + [p]), true)
  }

  /** The destructor of a subcase that was entered. */
  function Leave(st: State): State
    requires st.stack != []
  {
    st.(stack := st.stack[..|st.stack| - 1],
        passed := if st.reenter then st.passed else st.passed + {st.stack})
  }

  /** A test body, or the body of a subcase. */
  function RunBody(f: seq<Tree>, st: State): (r: State)
    ensures r.stack == st.stack
  {
    if f == [] then st else RunBody(f[1..], RunSubcase(f[0], st))
  }

  function RunSubcase(t: Tree, st: State): (r: State)
    ensures r.stack == st.stack
  {
    var (st1, entered) := Enter(st, t.sig);
    if entered then Leave(RunBody(t.children, st1)) else st1
  }

  // ----- what is passed after k leaves ---------------------------------------

  function AtMost(k: nat, n: nat): nat {
    if k < n then k else n
  }

  function Minus(k: nat, n: nat): nat {
    if k < n then 0 else k - n
  }

  /** The set of passed stacks is right for a body of which the first k visits are done: a
      subcase has passed exactly if all visits to it are done. */
  ghost predicate Done(f: seq<Tree>, base: Path, seen: set<Signature>, k: nat, passed: set<Path>) {
    if f == [] then true
    else if f[0].sig in seen then Done(f[1..], base, seen, k, passed)
    else
      var n := |VisitsOf(f[0], base)|;
      DoneIn(f[0], base, AtMost(k, n), passed) && Done(f[1..], base, seen + {f[0].sig}, Minus(k, n), passed)
  }

  ghost predicate DoneIn(t: Tree, base: Path, k: nat, passed: set<Path>) {
    && (base + [t.sig] in passed <==> |VisitsOf(t, base)| <= k)
    && (k < |VisitsOf(t, base)| ==> Done(t.children, base + [t.sig], {}, k, passed))
  }

  /** Path q leads through one of the subcases of f, not one that was seen before. */
  ghost predicate Through(f: seq<Tree>, base: Path, seen: set<Signature>, q: Path) {
    && |base| < |q| && q[..|base|] == base && q[|base|] !in seen
    && exists i :: 0 <= i < |f| && f[i].sig == q[|base|]
  }

  ghost predicate SameThrough(f: seq<Tree>, base: Path, seen: set<Signature>, a: set<Path>, b: set<Path>) {
    forall q :: Through(f, base, seen, q) ==> (q in a <==> q in b)
  }

  ghost predicate SameBeside(f: seq<Tree>, base: Path, seen: set<Signature>, a: set<Path>, b: set<Path>) {
    forall q :: !Through(f, base, seen, q) ==> (q in a <==> q in b)
  }

  /** A path through the rest of a body, or into its first subcase, is a path through the body. */
  lemma ThroughPart(f: seq<Tree>, base: Path, seen: set<Signature>, q: Path)
    requires f != []
    ensures Through(f[1..], base, seen, q) ==> Through(f, base, seen, q)
    ensures Through(f[1..], base, seen + {f[0].sig}, q) ==> Through(f, base, seen, q)
    ensures f[0].sig !in seen ==> Through(f, base, seen, base + [f[0].sig])
    ensures f[0].sig !in seen && Through(f[0].children, base + [f[0].sig], {}, q) ==>
              Through(f, base, seen, q) && q[|base|] == f[0].sig
  {
    var p := base + [f[0].sig];
    assert forall i :: 0 <= i < |f[1..]| ==> f[1..][i] == f[i + 1];
    assert p[..|base|] == base && p[|base|] == f[0].sig;
    if Through(f[0].children, p, {}, q) {
      assert q[..|base|] == q[..|p|][..|base|] && q[|base|] == q[..|p|][|base|];
    }
  }

  lemma {:induction false} DoneFrame(f: seq<Tree>, base: Path, seen: set<Signature>, k: nat,
                                     a: set<Path>, b: set<Path>)
    requires Done(f, base, seen, k, a) && SameThrough(f, base, seen, a, b)
    ensures Done(f, base, seen, k, b)
    decreases f
  {
    if f != [] {
      var t, p := f[0], base + [f[0].sig];
      var n := |VisitsOf(t, base)|;
      forall q ensures Through(f[1..], base, seen, q) ==> (q in a <==> q in b)
        ensures Through(f[1..], base, seen + {t.sig}, q) ==> (q in a <==> q in b)
        ensures t.sig !in seen && Through(t.children, p, {}, q) ==> (q in a <==> q in b)
      {
        ThroughPart(f, base, seen, q);
      }
      ThroughPart(f, base, seen, p);
      if t.sig in seen {
        DoneFrame(f[1..], base, seen, k, a, b);
      } else {
        if AtMost(k, n) < n {
          DoneFrame(t.children, p, {}, AtMost(k, n), a, b);
        }
        DoneFrame(f[1..], base, seen + {t.sig}, Minus(k, n), a, b);
      }
    }
  }

  lemma {:induction false} NothingDone(f: seq<Tree>, base: Path, seen: set<Signature>)
    ensures Done(f, base, seen, 0, {})
    decreases f
  {
    if f != [] {
      if f[0].sig in seen {
        NothingDone(f[1..], base, seen);
      } else {
        var n := |VisitsOf(f[0], base)|;
        NothingDone(f[0].children, base + [f[0].sig], {});
        NothingDone(f[1..], base, seen + {f[0].sig});
        assert AtMost(0, n) == 0 && Minus(0, n) == 0;
        assert DoneIn(f[0], base, 0, {});
      }
    }
  }

  /** Below a subcase that was entered, everything beside the path is put off. */
  lemma {:induction false} PutOff(f: seq<Tree>, st: State)
    requires |st.stack| < st.maxLevel
    ensures RunBody(f, st) == st.(reenter := st.reenter || f != [])
    decreases f
  {
    if f != [] {
      var st1 := st.(reenter := true);
      assert Enter(st, f[0].sig) == (st1, false);
      assert RunSubcase(f[0], st) == st1;
      PutOff(f[1..], st1);
    }
  }

  /** What has passed is not entered again. */
  lemma RunSkips(f: seq<Tree>, st: State)
    requires f != [] && st.maxLevel <= |st.stack| && st.stack + [f[0].sig] in st.passed
    ensures RunBody(f, st) == RunBody(f[1..], st)
  {
    assert Enter(st, f[0].sig) == (st, false);
  }

  /** Right after a subcase was entered. */
  function Inside(st: State, sig: Signature): State {
    var p := st.stack + [sig];
    st.(stack := p, maxLevel := |p|, log := st.log + [p])
  }

  /** What has not passed is entered, and the rest is put off. */
  lemma RunGoesIn(f: seq<Tree>, st: State)
    requires f != [] && st.maxLevel <= |st.stack| && st.stack + [f[0].sig] !in st.passed
    requires var st1 := Inside(st, f[0].sig); RunBody(f[0].children, st1).maxLevel >= st1.maxLevel
    ensures var st2 := Leave(RunBody(f[0].children, Inside(st, f[0].sig)));
            RunBody(f, st) == st2.(reenter := st2.reenter || f[1..] != [])
  {
    var st1 := Inside(st, f[0].sig);
    assert Enter(st, f[0].sig) == (st1, true);
    PutOff(f[1..], Leave(RunBody(f[0].children, st1)));
  }

  ghost predicate SeenPassed(base: Path, seen: set<Signature>, passed: set<Path>) {
    forall sig <- seen :: base + [sig] in passed
  }

  /** What one run does to a body with k visits done and more to do. */
  ghost predicate RunsVisit(f: seq<Tree>, seen: set<Signature>, vs: seq<Visit>, k: nat, st: State, r: State)
    requires k < |vs|
  {
    && r.stack == st.stack && st.maxLevel <= r.maxLevel
    && r.reenter == (k + 1 < |vs|)
    && |st.stack| <= |vs[k].path| && r.log == st.log + Steps(vs[k].path, |st.stack|)
    && Done(f, st.stack, seen, k + 1, r.passed)
    && SameBeside(f, st.stack, seen, st.passed, r.passed)
  }

  /** A run of any body makes exactly the next visit. */
  lemma {:induction false} RunIsNextVisit(f: seq<Tree>, seen: set<Signature>, k: nat, st: State)
    requires k < |VisitsAmong(f, st.stack, seen)| && Done(f, st.stack, seen, k, st.passed)
    requires SeenPassed(st.stack, seen, st.passed) && st.maxLevel <= |st.stack| && !st.reenter
    ensures RunsVisit(f, seen, VisitsAmong(f, st.stack, seen), k, st, RunBody(f, st))
    decreases f
  {
    hide RunBody;
    var t, p, n := f[0], st.stack + [f[0].sig], |VisitsOf(f[0], st.stack)|;
    if t.sig in seen {
      RunSkips(f, st);
      if |f| > 1 {
        RunIsNextVisit(f[1..], seen, k, st);
        AfterSeen(f, seen, k, st, RunBody(f[1..], st));
      } else {
        assert f[1..] == [];
        RunOfNothing(st);
        IdleRun(f, seen, st);
      }
    } else if n <= k {
      RunSkips(f, st);
      RunIsNextVisit(f[1..], seen + {t.sig}, k - n, st);
      AfterSkip(f, seen, k, st, RunBody(f[1..], st));
    } else {
      var st1 := Inside(st, t.sig);
      RunOfNothing(st1);
      InnerVisits(t, st.stack);
      if t.children != [] {
        RunIsNextVisit(t.children, {}, k, st1);
      }
      RunGoesIn(f, st);
      AfterEnter(f, seen, k, st, RunBody(t.children, st1), RunBody(f, st));
    }
  }

  lemma InnerVisits(t: Tree, base: Path)
    ensures VisitsOf(t, base) ==
            if t.children == [] then [Visit(base + [t.sig], false)] else VisitsAmong(t.children, base + [t.sig], {})
  {
  }

  lemma RunOfNothing(st: State)
    ensures RunBody([], st) == st
  {
  }

  lemma IdleRun(f: seq<Tree>, seen: set<Signature>, st: State)
    requires |f| == 1 && f[0].sig in seen && !st.reenter
    ensures RunsVisit(f, seen, VisitsAmong(f, st.stack, seen), 0, st, st)
  {
    StepsDone(st.stack);
    assert f[1..] == [];
  }

  lemma AfterSeen(f: seq<Tree>, seen: set<Signature>, k: nat, st: State, r: State)
    requires |f| > 1 && f[0].sig in seen
    requires k < |VisitsAmong(f[1..], st.stack, seen)|
    requires RunsVisit(f[1..], seen, VisitsAmong(f[1..], st.stack, seen), k, st, r)
    ensures RunsVisit(f, seen, VisitsAmong(f, st.stack, seen), k, st, r)
  {
    forall q | !Through(f, st.stack, seen, q) ensures q in r.passed <==> q in st.passed {
      ThroughPart(f, st.stack, seen, q);
    }
  }

  lemma AfterSkip(f: seq<Tree>, seen: set<Signature>, k: nat, st: State, r: State)
    requires f != [] && f[0].sig !in seen && k < |VisitsAmong(f, st.stack, seen)|
    requires Done(f, st.stack, seen, k, st.passed) && |VisitsOf(f[0], st.stack)| <= k
    requires var later := seen + {f[0].sig};
             RunsVisit(f[1..], later, VisitsAmong(f[1..], st.stack, later), k - |VisitsOf(f[0], st.stack)|, st, r)
    ensures RunsVisit(f, seen, VisitsAmong(f, st.stack, seen), k, st, r)
  {
    var b, n, p := st.stack, |VisitsOf(f[0], st.stack)|, st.stack + [f[0].sig];
    assert VisitsAmong(f, b, seen)[k] == VisitsAmong(f[1..], b, seen + {f[0].sig})[k - n];
    assert AtMost(k, n) == n == AtMost(k + 1, n) && Minus(k, n) == k - n && Minus(k + 1, n) == k + 1 - n;
    assert p[|b|] == f[0].sig && !Through(f[1..], b, seen + {f[0].sig}, p);
    assert p in r.passed && DoneIn(f[0], b, n, r.passed);
    forall q | !Through(f, b, seen, q) ensures q in r.passed <==> q in st.passed {
      ThroughPart(f, b, seen, q);
    }
  }

  lemma AfterEnter(f: seq<Tree>, seen: set<Signature>, k: nat, st: State, st2: State, r: State)
    requires f != [] && f[0].sig !in seen && k < |VisitsOf(f[0], st.stack)|
    requires Done(f, st.stack, seen, k, st.passed)
    requires var st1 := Inside(st, f[0].sig);
             if f[0].children == [] then st2 == st1 && !st.reenter
             else RunsVisit(f[0].children, {}, VisitsOf(f[0], st.stack), k, st1, st2)
    requires st2.stack == st.stack + [f[0].sig] && st.maxLevel <= st2.maxLevel
    requires var st3 := Leave(st2); r == st3.(reenter := st3.reenter || f[1..] != [])
    ensures RunsVisit(f, seen, VisitsAmong(f, st.stack, seen), k, st, r)
  {
    var t, b, n, p := f[0], st.stack, |VisitsOf(f[0], st.stack)|, st.stack + [f[0].sig];
    assert p[..|p| - 1] == b && p[|b|] == t.sig;
    assert VisitsAmong(f, b, seen)[k] == VisitsOf(t, b)[k];
    assert AtMost(k, n) == k && AtMost(k + 1, n) == k + 1 && Minus(k, n) == 0 == Minus(k + 1, n);
    assert r.passed == if k + 1 < n then st2.passed else st2.passed + {p};
    InnerVisits(t, b);
    EnterStep(t, k, st, st2);
    forall q ensures !Through(f, b, seen, q) ==> (q in r.passed <==> q in st.passed)
      ensures Through(f[1..], b, seen + {t.sig}, q) ==> (q in st.passed <==> q in r.passed)
    {
      ThroughPart(f, b, seen, q);
    }
    DoneFrame(f[1..], b, seen + {t.sig}, 0, st.passed, r.passed);
    assert !Through(t.children, p, {}, p);
    assert DoneIn(t, b, k + 1, r.passed);
  }

  lemma EnterStep(t: Tree, k: nat, st: State, st2: State)
    requires k < |VisitsOf(t, st.stack)|
    requires var st1 := Inside(st, t.sig);
             if t.children == [] then st2.log == st1.log
             else |st1.stack| <= |VisitsOf(t, st.stack)[k].path| &&
                  st2.log == st1.log + Steps(VisitsOf(t, st.stack)[k].path, |st1.stack|)
    ensures var q := VisitsOf(t, st.stack)[k].path;
            |st.stack| <= |q| && st2.log == st.log + Steps(q, |st.stack|)
  {
    hide Steps;
    var p, q := st.stack + [t.sig], VisitsOf(t, st.stack)[k].path;
    VisitsExtend(t, st.stack, k);
    if t.children == [] {
      StepsDone(q);
    }
    StepsFirst(q, |st.stack|);
    assert q[..|st.stack| + 1] == p;
  }

  /** All visits to a subcase lead through it. */
  lemma VisitsExtend(t: Tree, base: Path, k: nat)
    requires k < |VisitsOf(t, base)|
    ensures base + [t.sig] <= VisitsOf(t, base)[k].path
  {
    if t.children != [] {
      VisitsAmongExtend(t.children, base + [t.sig], {}, k);
    }
  }

  lemma {:induction false} VisitsAmongExtend(f: seq<Tree>, base: Path, seen: set<Signature>, k: nat)
    requires k < |VisitsAmong(f, base, seen)|
    ensures var v := VisitsAmong(f, base, seen)[k]; base <= v.path && (v.path == base ==> v.idle)
    decreases f
  {
    var n := |VisitsOf(f[0], base)|;
    if f[0].sig in seen {
      if |f| > 1 {
        VisitsAmongExtend(f[1..], base, seen, k);
      }
    } else if k < n {
      assert VisitsAmong(f, base, seen)[k] == VisitsOf(f[0], base)[k];
      if f[0].children != [] {
        VisitsAmongExtend(f[0].children, base + [f[0].sig], {}, k);
      }
    } else {
      VisitsAmongExtend(f[1..], base, seen + {f[0].sig}, k - n);
    }
  }

  /** The stacks of all subcases. */
  function AllPaths(f: seq<Tree>, base: Path): set<Path> {
    if f == [] then {}
    else {base + [f[0].sig]} + AllPaths(f[0].children, base + [f[0].sig]) + AllPaths(f[1..], base)
  }

  /** A run from st to r entered something: it passed a new stack, and none that it entered
      had passed before. */
  ghost predicate Entered(f: seq<Tree>, st: State, r: State) {
    && |st.stack| < r.maxLevel && st.passed < r.passed && r.passed <= st.passed + AllPaths(f, st.stack)
    && st.log < r.log && forall i :: |st.log| <= i < |r.log| ==> r.log[i] !in st.passed
  }

  /** A run of any body enters something new, or does nothing. */
  lemma {:induction false} RunEnters(f: seq<Tree>, st: State)
    requires st.maxLevel <= |st.stack| && !st.reenter
    ensures RunBody(f, st) == st || Entered(f, st, RunBody(f, st))
    decreases f
  {
    if f != [] {
      if st.stack + [f[0].sig] in st.passed {
        RunSkips(f, st);
        RunEnters(f[1..], st);
      } else {
        RunEnters(f[0].children, Inside(st, f[0].sig));
        RunGoesIn(f, st);
      }
    }
  }

  // ----- leaves and visits ----------------------------------------------------

  /** No two leaves have the same path. */
  lemma {:induction false} LeafPathsDistinct(f: seq<Tree>, base: Path, i: nat, j: nat)
    requires DistinctSiblings(f) && i < j < Leaves(f)
    ensures LeafPaths(f, base)[i] != LeafPaths(f, base)[j]
    decreases f
  {
    hide LeafPaths;
    var t, n, p := f[0], LeavesOf(f[0]), base + [f[0].sig];
    LeafPathsSplit(f, base, i);
    LeafPathsSplit(f, base, j);
    if j < n {
      LeafPathsDistinct(t.children, p, i, j);
    } else if n <= i {
      LeafPathsDistinct(f[1..], base, i - n, j - n);
    } else {
      FirstOfLeafPath(f[1..], base, j - n);
      if t.children != [] {
        LeafPathsExtend(t.children, p, i);
        assert LeafPaths(f, base)[i][..|p|][|base|] == t.sig;
      }
      assert forall m :: 0 <= m < |f[1..]| ==> f[1..][m] == f[m + 1];
    }
  }

  lemma {:induction false} LeafPathsSplit(f: seq<Tree>, base: Path, k: nat)
    requires k < Leaves(f)
    ensures var t, n := f[0], LeavesOf(f[0]);
            if n <= k then k - n < Leaves(f[1..]) && LeafPaths(f, base)[k] == LeafPaths(f[1..], base)[k - n]
            else if t.children == [] then LeafPaths(f, base)[k] == base + [t.sig]
            else k < Leaves(t.children) && LeafPaths(f, base)[k] == LeafPaths(t.children, base + [t.sig])[k]
  {
    hide LeafPaths;
    if k < LeavesOf(f[0]) {
      FirstPaths(f, base, k);
    } else {
      RestPaths(f, base, k);
    }
  }

  lemma {:induction false} FirstOfLeafPath(f: seq<Tree>, base: Path, k: nat)
    requires k < Leaves(f)
    ensures var q := LeafPaths(f, base)[k]; |base| < |q| && exists i :: 0 <= i < |f| && f[i].sig == q[|base|]
    decreases |f|
  {
    hide LeafPaths;
    LeafPathsSplit(f, base, k);
    var q := LeafPaths(f, base)[k];
    if LeavesOf(f[0]) <= k {
      FirstOfLeafPath(f[1..], base, k - LeavesOf(f[0]));
      var i :| 0 <= i < |f[1..]| && f[1..][i].sig == q[|base|];
      assert f[i + 1].sig == q[|base|];
    } else if f[0].children != [] {
      LeafPathsExtend(f[0].children, base + [f[0].sig], k);
      assert q[..|base| + 1][|base|] == f[0].sig;
    } else {
      assert q[|base|] == f[0].sig;
    }
  }

  lemma {:induction false} RestPaths(f: seq<Tree>, base: Path, k: nat)
    requires f != [] && LeavesOf(f[0]) <= k < Leaves(f)
    ensures k - LeavesOf(f[0]) < Leaves(f[1..])
    ensures LeafPaths(f, base)[k] == LeafPaths(f[1..], base)[k - LeavesOf(f[0])]
  {
  }

  lemma {:induction false} FirstPaths(f: seq<Tree>, base: Path, k: nat)
    requires f != [] && k < LeavesOf(f[0])
    ensures k < Leaves(f)
    ensures LeafPaths(f, base)[k] ==
            if f[0].children == [] then base + [f[0].sig] else LeafPaths(f[0].children, base + [f[0].sig])[k]
    ensures f[0].children != [] ==> k < Leaves(f[0].children)
  {
    assert LeafPaths(f, base)[k] == LeafPathsOf(f[0], base)[k];
  }

  lemma StepsFirst(q: Path, n: nat)
    requires n < |q|
    ensures Steps(q, n) == [q[..n + 1]] + Steps(q, n + 1)
  {
    var a, b := Steps(q, n), [q[..n + 1]] + Steps(q, n + 1);
    assert forall i :: 1 <= i < |a| ==> b[i] == Steps(q, n + 1)[i - 1];
    assert a == b;
  }

  lemma StepsDone(q: Path)
    ensures Steps(q, |q|) == []
  {
  }

  lemma {:induction false} LeafPathsExtend(f: seq<Tree>, base: Path, k: nat)
    requires k < Leaves(f)
    ensures var q := LeafPaths(f, base)[k]; |base| < |q| && q[..|base|] == base
    decreases f
  {
    var t := f[0];
    if LeavesOf(t) <= k {
      LeafPathsExtend(f[1..], base, k - LeavesOf(t));
    } else if t.children != [] {
      LeafPathsExtend(t.children, base + [t.sig], k);
      var q := LeafPaths(t.children, base + [t.sig])[k];
      assert q[..|base|] == q[..|base| + 1][..|base|];
    }
  }

  /** The body without those subcases that repeat the signature of an earlier sibling. */
  function Trimmed(f: seq<Tree>, seen: set<Signature>): seq<Tree> {
    if f == [] then []
    else if f[0].sig in seen then Trimmed(f[1..], seen)
    else [Node(f[0].sig, Trimmed(f[0].children, {}))] + Trimmed(f[1..], seen + {f[0].sig})
  }

  lemma {:induction false} TrimmedIsDistinct(f: seq<Tree>, seen: set<Signature>)
    ensures DistinctSiblings(Trimmed(f, seen))
    ensures forall t <- Trimmed(f, seen) :: t.sig !in seen
    decreases f
  {
    if f != [] {
      if f[0].sig in seen {
        TrimmedIsDistinct(f[1..], seen);
      } else {
        TrimmedIsDistinct(f[0].children, {});
        TrimmedIsDistinct(f[1..], seen + {f[0].sig});
        var rest := Trimmed(f[1..], seen + {f[0].sig});
        assert Trimmed(f, seen)[1..] == rest;
        assert forall i :: 0 <= i < |rest| ==> rest[i] in rest;
      }
    }
  }

  /** The paths of the visits that are not idle. */
  function Entering(vs: seq<Visit>): seq<Path> {
    if vs == [] then [] else (if vs[0].idle then [] else [vs[0].path]) + Entering(vs[1..])
  }

  lemma {:induction false} EnteringConcat(a: seq<Visit>, b: seq<Visit>)
    ensures Entering(a + b) == Entering(a) + Entering(b)
  {
    if a == [] {
      assert a + b == b;
    } else {
      assert (a + b)[1..] == a[1..] + b;
      EnteringConcat(a[1..], b);
    }
  }

  /** The visits that are not idle lead to the leaves of the body without later equal siblings. */
  lemma {:induction false} VisitsAreTrimmedLeaves(f: seq<Tree>, base: Path, seen: set<Signature>)
    ensures Entering(VisitsAmong(f, base, seen)) == LeafPaths(Trimmed(f, seen), base)
    decreases f
  {
    if f != [] {
      var t, p := f[0], base + [f[0].sig];
      if t.sig in seen {
        VisitsAreTrimmedLeaves(f[1..], base, seen);
      } else {
        var rest := Trimmed(f[1..], seen + {t.sig});
        VisitsAreTrimmedLeaves(t.children, p, {});
        VisitsAreTrimmedLeaves(f[1..], base, seen + {t.sig});
        EnteringConcat(VisitsOf(t, base), VisitsAmong(f[1..], base, seen + {t.sig}));
        var u := Node(t.sig, Trimmed(t.children, {}));
        assert Trimmed(f, seen)[0] == u && Trimmed(f, seen)[1..] == rest;
        InnerVisits(t, base);
        assert t.children != [] ==> u.children != [];
        assert t.children == [] ==> Entering([Visit(p, false)]) == [p];
        assert Entering(VisitsOf(t, base)) == LeafPathsOf(u, base);
      }
    }
  }

  /** The last subcase has the signature of an earlier one. */
  predicate LastRepeats(f: seq<Tree>, seen: set<Signature>)
    requires f != []
  {
    f[|f| - 1].sig in seen || exists i :: 0 <= i < |f| - 1 && f[i].sig == f[|f| - 1].sig
  }

  lemma LastRepeatsLater(f: seq<Tree>, seen: set<Signature>)
    requires |f| > 1
    ensures LastRepeats(f, seen) <==> LastRepeats(f[1..], seen + {f[0].sig})
  {
    assert forall i :: 0 <= i < |f| - 1 ==> f[1..][i] == f[i + 1];
    if i :| 0 <= i < |f| - 1 && f[i].sig == f[|f| - 1].sig {
      assert i > 0 ==> f[1..][i - 1].sig == f[|f| - 1].sig;
    }
  }

  /** A body takes a run in which none of its subcases is entered exactly if the last one has the
      signature of an earlier one, and it is the last run. */
  lemma {:induction false} IdleIffLastRepeats(f: seq<Tree>, base: Path, seen: set<Signature>, k: nat)
    requires k < |VisitsAmong(f, base, seen)|
    ensures VisitsAmong(f, base, seen)[k].path == base <==>
            k == |VisitsAmong(f, base, seen)| - 1 && LastRepeats(f, seen)
    decreases |f|
  {
    var vs, t, n := VisitsAmong(f, base, seen), f[0], |VisitsOf(f[0], base)|;
    if |f| > 1 {
      LastRepeatsLater(f, seen);
    }
    if t.sig in seen {
      if |f| > 1 {
        assert seen + {t.sig} == seen;
        IdleIffLastRepeats(f[1..], base, seen, k);
      }
    } else if k < n {
      assert vs[k] == VisitsOf(t, base)[k];
      VisitsExtend(t, base, k);
    } else {
      IdleIffLastRepeats(f[1..], base, seen + {t.sig}, k - n);
    }
  }

  function Paths(vs: seq<Visit>): (ps: seq<Path>)
    ensures |ps| == |vs|
  {
    seq(|vs|, i requires 0 <= i < |vs| => vs[i].path)
  }

  lemma PathsParts(f: seq<Tree>, base: Path, seen: set<Signature>)
    requires f != [] && f[0].sig !in seen
    ensures Paths(VisitsAmong(f, base, seen)) ==
            Paths(VisitsOf(f[0], base)) + Paths(VisitsAmong(f[1..], base, seen + {f[0].sig}))
  {
  }

  /** What is visited in a subcase are its leaves exactly if this is so for its body. */
  lemma PathsOfFirst(t: Tree, base: Path)
    ensures Paths(VisitsOf(t, base)) == LeafPathsOf(t, base) <==>
            t.children == [] ||
            Paths(VisitsAmong(t.children, base + [t.sig], {})) == LeafPaths(t.children, base + [t.sig])
  {
    InnerVisits(t, base);
  }

  lemma {:induction false} NoMoreVisitsThanLeaves(f: seq<Tree>, base: Path, seen: set<Signature>)
    ensures |VisitsAmong(f, base, seen)| <= Leaves(f)
    ensures f != [] ==> |VisitsOf(f[0], base)| <= LeavesOf(f[0])
    decreases f
  {
    if f != [] {
      InnerVisits(f[0], base);
      NoMoreVisitsThanLeaves(f[0].children, base + [f[0].sig], {});
      NoMoreVisitsThanLeaves(f[1..], base, seen);
      NoMoreVisitsThanLeaves(f[1..], base, seen + {f[0].sig});
    }
  }

  /** The visits lead to all leaves one by one exactly if siblings have different signatures. */
  lemma {:induction false} VisitsAreLeavesIff(f: seq<Tree>, base: Path, seen: set<Signature>)
    ensures Paths(VisitsAmong(f, base, seen)) == LeafPaths(f, base) <==> DistinctSiblings(f) && Unseen(f, seen)
    decreases f
  {
    if f == [] {
      NoneUnseen(base, seen);
    } else {
      hide LeafPaths, Leaves, DistinctSiblings, Unseen;
      var t, later := f[0], seen + {f[0].sig};
      DistinctParts(f, seen);
      LeafPathsParts(f, base);
      if t.sig in seen {
        NoMoreVisitsThanLeaves(f[1..], base, seen);
        LeafPathsExtend(f, base, 0);
      } else {
        VisitsAreLeavesIff(t.children, base + [t.sig], {});
        NoneUnseen(base, {});
        VisitsAreLeavesIff(f[1..], base, later);
        FirstVisitsIff(f, base, seen);
      }
    }
  }

  lemma FirstVisitsIff(f: seq<Tree>, base: Path, seen: set<Signature>)
    requires f != [] && f[0].sig !in seen
    requires var t := f[0];
             Paths(VisitsAmong(t.children, base + [t.sig], {})) == LeafPaths(t.children, base + [t.sig]) <==>
             DistinctSiblings(t.children)
    ensures Paths(VisitsAmong(f, base, seen)) == LeafPaths(f, base) <==>
            && DistinctSiblings(f[0].children)
            && Paths(VisitsAmong(f[1..], base, seen + {f[0].sig})) == LeafPaths(f[1..], base)
  {
    hide LeafPaths, LeafPathsOf, Leaves, LeavesOf, DistinctSiblings, Visits, VisitsAmong, VisitsOf, Paths;
    var t, later := f[0], seen + {f[0].sig};
    LeafPathsParts(f, base);
    PathsParts(f, base, seen);
    PathsOfFirst(t, base);
    NoMoreVisitsThanLeaves(f[1..], base, later);
    NoMoreVisitsThanLeaves(f, base, seen);
    NoneUnseen(base, {});
    SameParts(Paths(VisitsOf(t, base)), Paths(VisitsAmong(f[1..], base, later)),
              LeafPathsOf(t, base), LeafPaths(f[1..], base));
  }

  ghost predicate Unseen(f: seq<Tree>, seen: set<Signature>) {
    forall i :: 0 <= i < |f| ==> f[i].sig !in seen
  }

  lemma NoneUnseen(base: Path, seen: set<Signature>)
    ensures Unseen([], seen) && DistinctSiblings([]) && LeafPaths([], base) == []
    ensures forall f :: Unseen(f, {})
  {
  }

  lemma DistinctParts(f: seq<Tree>, seen: set<Signature>)
    requires f != []
    ensures DistinctSiblings(f) && Unseen(f, seen) <==>
            && f[0].sig !in seen && DistinctSiblings(f[0].children)
            && DistinctSiblings(f[1..]) && Unseen(f[1..], seen + {f[0].sig})
  {
    assert forall i :: 0 <= i < |f| - 1 ==> f[1..][i] == f[i + 1];
    assert forall i :: 1 <= i < |f| ==> f[i] == f[1..][i - 1];
  }

  lemma LeafPathsParts(f: seq<Tree>, base: Path)
    requires f != []
    ensures LeafPaths(f, base) == LeafPathsOf(f[0], base) + LeafPaths(f[1..], base)
    ensures Leaves(f) == LeavesOf(f[0]) + Leaves(f[1..])
  {
  }

  lemma SameParts<T>(a: seq<T>, b: seq<T>, c: seq<T>, d: seq<T>)
    requires |a| <= |c| && |b| <= |d|
    ensures a + b == c + d <==> a == c && b == d
  {
    if a + b == c + d {
      assert |a| + |b| == |a + b| == |c + d| == |c| + |d|;
      assert a == (a + b)[..|a|] && c == (c + d)[..|c|];
    }
  }

  // ----- the runs of the loop ------------------------------------------------

  /** Each run started the subcases down one of the paths. */
  ghost predicate RunsAre(runs: seq<seq<Path>>, ps: seq<Path>) {
    |runs| == |ps| && forall k :: 0 <= k < |runs| ==> runs[k] == Steps(ps[k], 0)
  }

  lemma StepsDiffer(p: Path, q: Path)
    ensures Steps(p, 0) == Steps(q, 0) <==> p == q
  {
    if Steps(p, 0) == Steps(q, 0) {
      assert |Steps(p, 0)| == |p| && |Steps(q, 0)| == |q|;
      if p != [] {
        assert p == Steps(p, 0)[|p| - 1] && q == Steps(q, 0)[|q| - 1];
      }
    }
  }

  lemma RunsDecide(f: seq<Tree>, runs: seq<seq<Path>>)
    requires RunsAre(runs, Paths(Visits(f, [])))
    ensures f == [] ==> runs == [[]]
    ensures f != [] ==> (DistinctSiblings(f) <==> RunsAre(runs, LeafPaths(f, [])))
  {
    hide DistinctSiblings, LeafPaths, Steps;
    StepsDone([]);
    if f != [] {
      var ps, qs := Paths(Visits(f, [])), LeafPaths(f, []);
      VisitsAreLeavesIff(f, [], {});
      if RunsAre(runs, qs) {
        forall k | 0 <= k < |ps| ensures ps[k] == qs[k] {
          StepsDiffer(ps[k], qs[k]);
        }
      }
    }
  }

  /** A run as it begins in the loop: the next visit. */
  lemma NextRun(f: seq<Tree>, k: nat, st: State)
    requires st.stack == [] && st.maxLevel == 0 && !st.reenter && st.log == []
    requires k < |Visits(f, [])| && Done(f, [], {}, k, st.passed)
    ensures var r := RunBody(f, st);
            && r.log == Steps(Visits(f, [])[k].path, 0) && r.reenter == (k + 1 < |Visits(f, [])|)
            && Done(f, [], {}, k + 1, r.passed)
  {
    hide RunBody, Steps;
    if f == [] {
      RunOfNothing(st);
      StepsDone([]);
    } else {
      RunIsNextVisit(f, {}, k, st);
    }
  }

  // ----- the driver ----------------------------------------------------------

  /** What the driver keeps while a test case is executed. */
  class ContextState {
    var subcasesStack: Path
    var subcasesPassed: set<Path>
    var subcasesCurrentMaxLevel: nat
    var shouldReenter: bool
    var started: seq<Path>  // the stack at every subcase start of the current run, as the reporters see it

    function Now(): State
      reads this
    {
      State(subcasesStack, subcasesPassed, subcasesCurrentMaxLevel, shouldReenter, started)
    }

    constructor ()
      ensures Now() == State([], {}, 0, false, [])
    {
      subcasesStack, subcasesPassed, subcasesCurrentMaxLevel, shouldReenter, started := [], {}, 0, false, [];
    }

    /** The constructor of a subcase. */
    method EnterSubcase(sig: Signature) returns (entered: bool)
      modifies this
      ensures (Now(), entered) == Enter(old(Now()), sig)
    {
      entered := false;
      if |subcasesStack| < subcasesCurrentMaxLevel {
        shouldReenter := true;
        return;
      }
      subcasesStack := subcasesStack + [sig];
      if subcasesStack in subcasesPassed {
        subcasesStack := subcasesStack[..|subcasesStack| - 1];
        return;
      }
      subcasesCurrentMaxLevel := |subcasesStack|;
      entered := true;
      started := started + [subcasesStack];
    }

    /** The destructor of a subcase. */
    method LeaveSubcase(entered: bool)
      requires entered ==> subcasesStack != []
      modifies this
      ensures Now() == if entered then Leave(old(Now())) else old(Now())
    {
      if entered {
        if !shouldReenter {
          subcasesPassed := subcasesPassed + {subcasesStack};
        }
        subcasesStack := subcasesStack[..|subcasesStack| - 1];
      }
    }

    /** A test body, which constructs its subcases one after the other. */
    method Execute(f: seq<Tree>)
      modifies this
      ensures Now() == RunBody(f, old(Now()))
      decreases f
    {
      if f != [] {
        var entered := EnterSubcase(f[0].sig);
        if entered {
          Execute(f[0].children);
        }
        LeaveSubcase(entered);
        Execute(f[1..]);
      }
    }

    /** The loop that executes a test case.  It ends for every test body, and its runs are the
        visits of the body: what each of them starts, in its order, are the subcases down the path
        of the visit.  These are the paths to the leaves one by one exactly if siblings have
        different signatures everywhere. */
    method RunTest(f: seq<Tree>) returns (runs: seq<seq<Path>>)
      modifies this
      ensures RunsAre(runs, Paths(Visits(f, [])))
      ensures f == [] ==> runs == [[]]
      ensures f != [] ==> (DistinctSiblings(f) <==> RunsAre(runs, LeafPaths(f, [])))
    {
      hide Done, Visits, DistinctSiblings, LeafPaths, RunBody, Steps;
      subcasesPassed := {};
      runs := [];
      ghost var vs := Visits(f, []);
      NothingDone(f, [], {});
      var runTest := true;
      while runTest
        invariant |runs| <= |vs| && (runTest <==> |runs| < |vs|)
        invariant Done(f, [], {}, |runs|, subcasesPassed)
        invariant RunsAre(runs, Paths(vs)[..|runs|])
        decreases |vs| - |runs|
      {
        shouldReenter := false;
        subcasesCurrentMaxLevel := 0;
        subcasesStack := [];
        started := [];
        NextRun(f, |runs|, Now());
        Execute(f);
        runs := runs + [started];
        if !shouldReenter {
          runTest := false;
        }
      }
      assert Paths(vs)[..|runs|] == Paths(vs);
      RunsDecide(f, runs);
    }
  }
}
