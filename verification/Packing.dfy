/** The packer as a state machine over skylines: which place it chooses for a
    rectangle, what placing it does, and what holds in every run. */
module Packing {
  import opened Wrappers
  import opened Columns
  import opened Skyline

  datatype Rect = Rect(x: int, y: int, w: int, h: int)

  /** A position for a rectangle: the level of the skyline under it, the area that
      it leaves free there, and the segment in which it starts. */
  datatype Place = Place(x: int, y: int, waste: int, at: int)

  datatype Packer = Packer(
    width: int, height: int, numNodes: int,  // fixed by the initialization
    align: int, bestFit: bool,               // search parameters
    sky: seq<Seg>, free: int,                // active list and number of free nodes
    placed: seq<Rect>)                       // what has been packed so far

  // ----- the choice of a place -----------------------------------------------

  function RoundUp(w: int, align: int): (r: int)
    requires 0 < align
    ensures w <= r < w + align && r % align == 0
  {
    var v := w + align - 1;
    assert (v - v % align) % align == 0 by { Multiple(v, align); }
    v - v % align
  }

  lemma Multiple(v: int, align: int)
    requires 0 < align
    ensures (v - v % align) % align == 0
  {
    var u := v - v % align;
    var n := v / align - u / align;
    assert v == align * (v / align) + v % align && u == align * (u / align) + u % align;
    assert align * n == u % align;
    assert n <= -1 || n == 0 || 1 <= n;
  }

  ghost predicate FitsLeft(s: seq<Seg>, w: int, i: int) {
    0 <= i < |s| - 1 && s[i].x + w <= Width(s)
  }

  ghost predicate FitsRight(s: seq<Seg>, w: int, i: int) {
    0 <= i < |s| && w <= s[i].x
  }

  /** The place whose left edge is at the left end of segment i. */
  ghost function LeftPlace(s: seq<Seg>, w: int, i: int): Place
    requires IsSkyline(s) && 0 < w && FitsLeft(s, w, i)
  {
    Place(s[i].x, Highest(Profile(s), s[i].x, s[i].x + w), FreeArea(s, s[i].x, w), i)
  }

  /** The place whose right edge is at the left end of segment i. */
  ghost function RightPlace(s: seq<Seg>, w: int, i: int): Place
    requires IsSkyline(s) && 0 < w && FitsRight(s, w, i)
  {
    assert s[i].x <= Width(s);
    var x := s[i].x - w;
    var at := IndexAt(s, x);
    Place(x, Highest(Profile(s), x, x + w), FreeArea(s, x, w), at)
  }

  /** The order of preference: bottom-left looks at (y, x), best-fit at (y, free area, x). */
  ghost predicate Better(bestFit: bool, p: Place, q: Place) {
    p.y < q.y || (p.y == q.y &&
      if bestFit then p.waste < q.waste || (p.waste == q.waste && p.x < q.x) else p.x < q.x)
  }

  /** The first place in a list to which none is preferred. */
  ghost function Pick(bestFit: bool, ps: seq<Place>): Option<Place> {
    if ps == [] then None
    else
      var p, best := ps[|ps| - 1], Pick(bestFit, ps[..|ps| - 1]);
      if best.None? || Better(bestFit, p, best.value) then Some(p) else best
  }

  lemma {:induction false} PickIsOptimal(bestFit: bool, ps: seq<Place>)
    ensures var r := Pick(bestFit, ps);
            if ps == [] then r.None?
            else r.Some? && r.value in ps && forall p :: p in ps ==> !Better(bestFit, p, r.value)
  {
    if ps != [] {
      var init := ps[..|ps| - 1];
      PickIsOptimal(bestFit, init);
      assert ps == init + [ps[|ps| - 1]];
    }
  }

  lemma PickStep(bestFit: bool, ps: seq<Place>, p: Place)
    ensures var best := Pick(bestFit, ps);
            Pick(bestFit, ps + [p]) == if best.None? || Better(bestFit, p, best.value) then Some(p) else best
  {
    assert (ps + [p])[..|ps|] == ps;
  }

  /** Best-fit considers only places that fit in height. */
  ghost predicate Admits(k: Packer, h: int, p: Place) {
    k.bestFit ==> p.y + h <= k.height
  }

  /** The candidate with its left edge at segment i, if there is one. */
  ghost function LeftAt(k: Packer, w: int, h: int, i: int): Option<Place> {
    if IsSkyline(k.sky) && 0 < w && FitsLeft(k.sky, w, i) && Admits(k, h, LeftPlace(k.sky, w, i))
    then Some(LeftPlace(k.sky, w, i)) else None
  }

  /** The candidate with its right edge at element i; only best-fit has them. */
  ghost function RightAt(k: Packer, w: int, h: int, i: int): Option<Place> {
    if k.bestFit && IsSkyline(k.sky) && 0 < w && FitsRight(k.sky, w, i) && Admits(k, h, RightPlace(k.sky, w, i))
    then Some(RightPlace(k.sky, w, i)) else None
  }

  /** The values that f has among 0, ..., n - 1, in order. */
  ghost function Collect(f: int -> Option<Place>, n: nat): seq<Place> {
    if n == 0 then [] else Collect(f, n - 1) + if f(n - 1).Some? then [f(n - 1).value] else []
  }

  lemma {:induction false} CollectHas(f: int -> Option<Place>, n: nat, p: Place)
    ensures p in Collect(f, n) <==> exists i :: 0 <= i < n && f(i) == Some(p)
  {
    if n != 0 {
      CollectHas(f, n - 1, p);
    }
  }

  ghost function Lefts(k: Packer, w: int, h: int): int -> Option<Place> {
    i => LeftAt(k, w, h, i)
  }

  ghost function Rights(k: Packer, w: int, h: int): int -> Option<Place> {
    i => RightAt(k, w, h, i)
  }

  /** Everything the heuristic chooses from, for a width already rounded up. */
  ghost function Candidates(k: Packer, w: int, h: int): seq<Place> {
    Collect(Lefts(k, w, h), |k.sky|) + Collect(Rights(k, w, h), |k.sky|)
  }

  lemma {:induction false} CollectNone(f: int -> Option<Place>, m: nat, n: nat)
    requires m <= n && forall i :: m <= i < n ==> f(i).None?
    ensures Collect(f, n) == Collect(f, m)
    decreases n
  {
    if m < n {
      CollectNone(f, m, n - 1);
    }
  }

  ghost predicate IsPlace(k: Packer, w: int, h: int, p: Place) {
    exists i :: 0 <= i < |k.sky| && (Lefts(k, w, h)(i) == Some(p) || Rights(k, w, h)(i) == Some(p))
  }

  /** The candidates are exactly the admissible places. */
  lemma CandidatesAreThePlaces(k: Packer, w: int, h: int, p: Place)
    ensures p in Candidates(k, w, h) <==> IsPlace(k, w, h, p)
  {
    CollectHas(Lefts(k, w, h), |k.sky|, p);
    CollectHas(Rights(k, w, h), |k.sky|, p);
  }

  /** The chosen place, if any, for a w x h rectangle. */
  ghost function Best(k: Packer, w: int, h: int): Option<Place>
    requires 0 < w && 0 < k.align
  {
    var rounded := RoundUp(w, k.align);
    if k.width < rounded || k.height < h then None
    else Pick(k.bestFit, Candidates(k, rounded, h))
  }

  /** The chosen place is admissible and no admissible place is preferred to it;
      there is none exactly when there is no admissible place. */
  lemma BestIsOptimal(k: Packer, w: int, h: int)
    requires 0 < w && 0 < k.align
    requires RoundUp(w, k.align) <= k.width && h <= k.height
    ensures var r, rw := Best(k, w, h), RoundUp(w, k.align);
            && (r.Some? ==> IsPlace(k, rw, h, r.value))
            && (forall p :: IsPlace(k, rw, h, p) ==> r.Some? && !Better(k.bestFit, p, r.value))
  {
    var rw := RoundUp(w, k.align);
    var ps := Candidates(k, rw, h);
    PickIsOptimal(k.bestFit, ps);
    if ps != [] {
      CandidatesAreThePlaces(k, rw, h, Best(k, w, h).value);
    }
    forall p | IsPlace(k, rw, h, p) ensures p in ps {
      CandidatesAreThePlaces(k, rw, h, p);
    }
  }

  /** What a candidate for width w says about the skyline: it starts in its
      segment, lies on the level of its window, and, unless it starts at the
      left end of its segment, reaches the end of it. */
  ghost predicate Sits(s: seq<Seg>, w: int, p: Place) {
    && IsSkyline(s) && 0 <= p.at < |s| - 1
    && 0 <= s[p.at].x <= p.x < s[p.at + 1].x && 0 < w && p.x + w <= Width(s)
    && p.y == Highest(Profile(s), p.x, p.x + w)
    && (p.x == s[p.at].x || s[p.at + 1].x <= p.x + w)
  }

  lemma LeftSits(s: seq<Seg>, w: int, i: int)
    requires IsSkyline(s) && 0 < w && FitsLeft(s, w, i)
    ensures Sits(s, w, LeftPlace(s, w, i))
  {
    assert s[i].x < s[i + 1].x;
  }

  lemma RightSits(s: seq<Seg>, w: int, i: int)
    requires IsSkyline(s) && 0 < w && FitsRight(s, w, i)
    ensures Sits(s, w, RightPlace(s, w, i))
  {
    hide Highest, Profile, FreeArea;
    var at := IndexAt(s, s[i].x - w);
    assert at < i;
    assert s[0].x <= s[at].x;
    assert s[at + 1].x <= s[i].x;
  }

  lemma CandidateSits(k: Packer, w: int, h: int, p: Place, i: int)
    requires Lefts(k, w, h)(i) == Some(p) || Rights(k, w, h)(i) == Some(p)
    ensures Sits(k.sky, w, p)
  {
    if LeftAt(k, w, h, i) == Some(p) {
      LeftSits(k.sky, w, i);
    } else {
      assert RightAt(k, w, h, i) == Some(p);
      RightSits(k.sky, w, i);
    }
  }

  lemma BestSits(k: Packer, w: int, h: int)
    requires 0 < w && 0 < k.align && Best(k, w, h).Some?
    ensures Sits(k.sky, RoundUp(w, k.align), Best(k, w, h).value) && 0 <= Best(k, w, h).value.y
  {
    BestIsOptimal(k, w, h);
    var p, rw := Best(k, w, h).value, RoundUp(w, k.align);
    var i :| 0 <= i < |k.sky| && (Lefts(k, rw, h)(i) == Some(p) || Rights(k, rw, h)(i) == Some(p));
    CandidateSits(k, rw, h, p, i);
  }

  /** On the floor, the chosen place is at the left end: the place there is as low, leaves
      nothing free either, and is further left. */
  lemma FloorPlaceIsLeft(k: Packer, w: int, h: int)
    requires 0 < w && 0 < k.align && FloorLast(k.sky)
    requires Best(k, w, h).Some?
    ensures var p := Best(k, w, h).value;
            0 <= p.at < |k.sky| - 1 && (k.sky[p.at].x < p.x ==> 0 < k.sky[p.at].y)
  {
    hide Highest, Pick, Candidates;
    BestSits(k, w, h);
    BestIsOptimal(k, w, h);
    var p, rw := Best(k, w, h).value, RoundUp(w, k.align);
    if k.sky[p.at].x < p.x && k.sky[p.at].y == 0 {
      assert p.at == |k.sky| - 2;
      FloorPlaces(k, rw, h, p);
    }
  }

  lemma FloorPlaces(k: Packer, rw: int, h: int, p: Place)
    requires IsPlace(k, rw, h, p) && Sits(k.sky, rw, p)
    requires p.at == |k.sky| - 2 && k.sky[p.at].x < p.x && k.sky[p.at].y == 0
    ensures exists q :: IsPlace(k, rw, h, q) && Better(k.bestFit, q, p)
  {
    hide Highest, FreeArea, IsSkyline, Better, Sits, Profile;
    SitsWithin(k.sky, rw, p);
    RightPlaceIs(k, rw, h, p);
    FloorIsFree(k.sky, p.at, p.x, rw);
    FloorIsFree(k.sky, p.at, k.sky[p.at].x, rw);
    var q := LeftPlace(k.sky, rw, p.at);
    BetterLeft(k.bestFit, q, p);
    assert Lefts(k, rw, h)(p.at) == Some(q);
  }

  lemma SitsWithin(s: seq<Seg>, w: int, p: Place)
    requires Sits(s, w, p)
    ensures IsSkyline(s) && 0 <= p.at < |s| - 1 && 0 <= s[p.at].x <= p.x && 0 < w && p.x + w <= Width(s)
    ensures p.y == Highest(Profile(s), p.x, p.x + w)
  {
  }

  /** A place inside a segment is a right-aligned one. */
  lemma RightPlaceIs(k: Packer, rw: int, h: int, p: Place)
    requires IsPlace(k, rw, h, p) && 0 <= p.at < |k.sky| && k.sky[p.at].x < p.x && 0 <= p.x
    ensures IsSkyline(k.sky) && 0 < rw && p.x + rw <= Width(k.sky)
    ensures p.waste == FreeArea(k.sky, p.x, rw) && Admits(k, h, p)
  {
    hide Highest, FreeArea, IsSkyline, Profile;
    var i :| 0 <= i < |k.sky| && (Lefts(k, rw, h)(i) == Some(p) || Rights(k, rw, h)(i) == Some(p));
    assert Lefts(k, rw, h)(i) != Some(p);
    assert p == RightPlace(k.sky, rw, i);
    AtMostWidth(k.sky, i);
  }

  lemma AtMostWidth(s: seq<Seg>, i: int)
    requires IsSkyline(s) && 0 <= i < |s|
    ensures s[i].x <= Width(s)
  {
  }

  lemma BetterLeft(bestFit: bool, q: Place, p: Place)
    requires q.y == p.y && q.waste == p.waste && q.x < p.x
    ensures Better(bestFit, q, p)
  {
  }

  lemma FloorIsFree(s: seq<Seg>, i: int, x: int, w: int)
    requires IsSkyline(s) && i == |s| - 2 && s[i].y == 0 && s[i].x <= x && 0 < w && x + w <= Width(s)
    ensures Highest(Profile(s), x, x + w) == 0 && FreeArea(s, x, w) == 0
  {
    hide Highest, Waste, Profile;
    ProfileDrawn(s, i);
    assert Flat(Profile(s), x, x + w, 0);
    FloorWindow(Profile(s), x, x + w);
  }

  // ----- placing a rectangle -------------------------------------------------

  /** The rectangle is turned away: nothing fits in height, or no node is free. */
  ghost predicate Rejects(k: Packer, w: int, h: int)
    requires 0 < w && 0 < k.align
  {
    var best := Best(k, w, h);
    best.None? || k.height < best.value.y + h || k.free == 0
  }

  /** A window of the rounded width at column x takes the rectangle without leaving the target. */
  ghost predicate FitsAt(k: Packer, rw: int, h: int, x: int) {
    && IsSkyline(k.sky) && 0 <= x && 0 < rw && x + rw <= Width(k.sky)
    && Highest(Profile(k.sky), x, x + rw) + h <= k.height
  }

  ghost predicate FitsSomewhere(k: Packer, rw: int, h: int) {
    exists x :: FitsAt(k, rw, h, x)
  }

  /** What a caller has to reckon with: no node is free, or there is no room at any column. */
  ghost predicate Refused(k: Packer, w: int, h: int)
    requires 0 < k.align
  {
    k.free == 0 || !FitsSomewhere(k, RoundUp(w, k.align), h)
  }

  /** A window that moves left to the start of its segment does not rise. */
  lemma ShiftLeft(s: seq<Seg>, x: int, w: int, i: int)
    requires IsSkyline(s) && 0 < w && x + w <= Width(s)
    requires 0 <= i < |s| - 1 && 0 <= s[i].x <= x < s[i + 1].x
    ensures Highest(Profile(s), s[i].x, s[i].x + w) <= Highest(Profile(s), x, x + w)
  {
    hide Highest, IsSkyline;
    var h := Profile(s);
    HighestIsMaximum(h, s[i].x, s[i].x + w);
    HighestIsMaximum(h, x, x + w);
    var c :| s[i].x <= c < s[i].x + w && h[c] == Highest(h, s[i].x, s[i].x + w);
    if c < x {
      HeightIn(s, i, c);
      HeightIn(s, i, x);
      assert h[c] == h[x];
    }
  }

  /** Where a rectangle fits at any column, it fits with its left edge at a segment. */
  lemma FitsAtSegment(k: Packer, rw: int, h: int, x: int) returns (i: int)
    requires Inv(k) && FitsAt(k, rw, h, x)
    ensures FitsLeft(k.sky, rw, i) && IsSkyline(k.sky) && 0 < rw
    ensures LeftPlace(k.sky, rw, i).y + h <= k.height && 0 <= LeftPlace(k.sky, rw, i).y
    ensures IsPlace(k, rw, h, LeftPlace(k.sky, rw, i))
  {
    hide Highest, FreeArea, FloorLast;
    i := IndexAt(k.sky, x);
    ShiftLeft(k.sky, x, rw, i);
    assert Lefts(k, rw, h)(i) == Some(LeftPlace(k.sky, rw, i));
  }

  /** A rectangle is turned away exactly if no node is free, or it fits at no column of the
      target: looking at segments alone misses nothing. */
  lemma RefusedIff(k: Packer, w: int, h: int)
    requires Inv(k) && 0 < w && 0 < h
    ensures Rejects(k, w, h) <==> Refused(k, w, h)
  {
    hide Inv, FitsAt, Best;
    InvBasics(k);
    if x :| FitsAt(k, RoundUp(w, k.align), h, x) {
      FittingIsFound(k, w, h, x);
    }
    if Best(k, w, h).Some? {
      PlaceFits(k, w, h);
    }
  }

  lemma FittingIsFound(k: Packer, w: int, h: int, x: int)
    requires Inv(k) && 0 < w && 0 < h && FitsAt(k, RoundUp(w, k.align), h, x)
    ensures Best(k, w, h).Some? && Best(k, w, h).value.y + h <= k.height
  {
    hide Highest, Inv, IsPlace, Best, LeftPlace;
    InvBasics(k);
    var rw := RoundUp(w, k.align);
    var i := FitsAtSegment(k, rw, h, x);
    BestIsOptimal(k, w, h);
    BestIsLow(k, w, h, LeftPlace(k.sky, rw, i));
  }

  lemma PlaceFits(k: Packer, w: int, h: int)
    requires 0 < w && 0 < k.align && Best(k, w, h).Some?
    ensures Best(k, w, h).value.y + h <= k.height ==> FitsAt(k, RoundUp(w, k.align), h, Best(k, w, h).value.x)
  {
    hide Highest, Best, IsSkyline, Sits;
    BestSits(k, w, h);
    SitsWithin(k.sky, RoundUp(w, k.align), Best(k, w, h).value);
  }

  lemma BestIsLow(k: Packer, w: int, h: int, p: Place)
    requires 0 < w && 0 < k.align && Best(k, w, h).Some? && !Better(k.bestFit, p, Best(k, w, h).value)
    ensures Best(k, w, h).value.y <= p.y
  {
    hide Best;
  }

  /** With as many nodes as columns, whatever fits anywhere is packed. */
  lemma FittingIsPacked(width: int, height: int, numNodes: int, steps: seq<Step>, w: int, h: int)
    requires 0 < width <= numNodes && 0 <= height && 0 < w && 0 < h
    ensures Inv(Init(width, height, numNodes))
    ensures var k := Run(Init(width, height, numNodes), steps);
            Rejects(k, w, h) <==> !FitsSomewhere(k, RoundUp(w, k.align), h)
  {
    hide Inv, Rejects, FitsSomewhere;
    InitInv(width, height, numNodes);
    var k := Run(Init(width, height, numNodes), steps);
    InvBasics(k);
    EnoughNodes(k);
    RefusedIff(k, w, h);
  }

  ghost function PackOne(k: Packer, w: int, h: int): Packer
    requires 0 < w && 0 < k.align
  {
    if Rejects(k, w, h) then k
    else
      var p := Best(k, w, h).value;
      BestSits(k, w, h);
      var sky := Splice(k.sky, p.at, p.x, w, p.y + h);
      k.(sky := sky, free := k.free + |k.sky| - |sky|, placed := k.placed + [Rect(p.x, p.y, w, h)])
  }

  /** Rectangle r lies on the target, under the skyline. */
  ghost predicate Under(s: seq<Seg>, height: int, r: Rect)
    requires IsSkyline(s)
  {
    && 0 <= r.x && 0 < r.w && r.x + r.w <= Width(s)
    && 0 <= r.y && 0 < r.h && r.y + r.h <= height
    && forall c :: r.x <= c < r.x + r.w ==> r.y + r.h <= Height(s, c)
  }

  ghost predicate Disjoint(a: Rect, b: Rect) {
    a.x + a.w <= b.x || b.x + b.w <= a.x || a.y + a.h <= b.y || b.y + b.h <= a.y
  }

  ghost predicate PairwiseDisjoint(rs: seq<Rect>) {
    forall i, j :: 0 <= i < j < |rs| ==> Disjoint(rs[i], rs[j])
  }

  ghost predicate LowSkyline(s: seq<Seg>, height: int)
    requires IsSkyline(s)
  {
    forall c :: 0 <= c < Width(s) ==> Height(s, c) <= height
  }

  /** The state invariant of the packer. */
  ghost predicate Inv(k: Packer) {
    && IsSkyline(k.sky) && Width(k.sky) == k.width && LowSkyline(k.sky, k.height) && FloorLast(k.sky)
    && 0 < k.align && 0 < k.numNodes
    && 0 <= k.free && |k.sky| + k.free == k.numNodes + 2
    && (forall i :: 0 <= i < |k.placed| ==> Under(k.sky, k.height, k.placed[i]))
    && PairwiseDisjoint(k.placed)
  }

  lemma InvBasics(k: Packer)
    requires Inv(k)
    ensures 0 < k.align && 0 < k.numNodes && IsSkyline(k.sky) && Width(k.sky) == k.width && LowSkyline(k.sky, k.height)
    ensures FloorLast(k.sky)
  {
  }

  /** No column of the window is above the level of the place. */
  lemma SitsAbove(s: seq<Seg>, w: int, p: Place, c: int)
    requires Sits(s, w, p) && p.x <= c < p.x + w
    ensures Height(s, c) <= p.y
  {
    hide IsSkyline, Highest;
    HighestIsMaximum(Profile(s), p.x, p.x + w);
    assert Profile(s)[c] <= p.y;
  }

  /** The new segment may cover more columns than the rectangle, but only
      columns of the segment in which the rectangle starts. */
  lemma CoverIsLow(s: seq<Seg>, rw: int, p: Place, w: int, top: int, c: int)
    requires Sits(s, rw, p) && 0 < w <= rw && p.y <= top
    requires p.x <= c < CoverEnd(s, p.at, p.x, w)
    ensures 0 <= c < Width(s) && Height(s, c) <= p.y
  {
    hide CoverEnd, Highest, Profile;
    CoverEndBounds(s, p.at, p.x, w, top);
    if c < p.x + w {
      SitsAbove(s, rw, p, c);
    } else {
      SitsAbove(s, rw, p, p.x);
      HeightIn(s, p.at, p.x);
      HeightIn(s, p.at, c);
    }
  }

  /** Skyline t is s after a rectangle with its top at `top` went on place p. */
  ghost predicate Covered(s: seq<Seg>, t: seq<Seg>, p: Place, w: int, top: int) {
    && IsSkyline(s) && IsSkyline(t) && Width(t) == Width(s) && 0 <= p.x && p.x + w <= Width(s)
    && (forall c :: 0 <= c < Width(s) ==> Height(s, c) <= Height(t, c))
    && (forall c :: 0 <= c < Width(s) ==> Height(t, c) == Height(s, c) || Height(t, c) == top)
    && (forall c :: p.x <= c < p.x + w ==> Height(t, c) == top)
  }

  /** The skyline only grows, and the rectangle ends up under it. */
  lemma PlaceCovers(s: seq<Seg>, rw: int, p: Place, w: int, top: int)
    requires Sits(s, rw, p) && 0 < w <= rw && p.y <= top
    ensures Covered(s, Splice(s, p.at, p.x, w, top), p, w, top)
  {
    var end := CoverEnd(s, p.at, p.x, w);
    SpliceRaises(s, p.at, p.x, w, top);
    CoverEndBounds(s, p.at, p.x, w, top);
    forall c | p.x <= c < end ensures 0 <= c < Width(s) && Height(s, c) <= p.y {
      CoverIsLow(s, rw, p, w, top, c);
    }
    RaisedCovers(s, Splice(s, p.at, p.x, w, top), p, w, end, top);
  }

  lemma RaisedCovers(s: seq<Seg>, t: seq<Seg>, p: Place, w: int, to: int, top: int)
    requires Raised(s, t, p.x, to, top) && 0 <= p.x && p.x + w <= to <= Width(s)
    requires forall c :: p.x <= c < to ==> 0 <= c < Width(s) && Height(s, c) <= top
    ensures Covered(s, t, p, w, top)
  {
  }

  lemma StaysUnder(s: seq<Seg>, t: seq<Seg>, height: int, r: Rect)
    requires IsSkyline(s) && IsSkyline(t) && Width(t) == Width(s) && Under(s, height, r)
    requires forall c :: 0 <= c < Width(s) ==> Height(s, c) <= Height(t, c)
    ensures Under(t, height, r)
  {
    forall c | r.x <= c < r.x + r.w ensures r.y + r.h <= Height(t, c) {
      assert Height(s, c) <= Height(t, c);
    }
  }

  /** Whatever is under the skyline does not meet a rectangle put on top of it. */
  lemma UnderIsDisjoint(s: seq<Seg>, height: int, rw: int, p: Place, w: int, h: int, r: Rect)
    requires Sits(s, rw, p) && 0 < w <= rw && Under(s, height, r)
    ensures Disjoint(r, Rect(p.x, p.y, w, h))
  {
    if p.x < r.x + r.w && r.x < p.x + w {
      var c := if p.x < r.x then r.x else p.x;
      SitsAbove(s, rw, p, c);
    }
  }

  /** What packing does when it succeeds. */
  lemma PackOneShape(k: Packer, w: int, h: int) returns (p: Place, t: seq<Seg>)
    requires 0 < w && 0 < h && 0 < k.align && !Rejects(k, w, h)
    ensures Best(k, w, h) == Some(p) && 0 <= p.y && p.y + h <= k.height && k.free != 0
    ensures Sits(k.sky, RoundUp(w, k.align), p) && 0 <= p.at < |k.sky| - 1 && t == Splice(k.sky, p.at, p.x, w, p.y + h)
    ensures Covered(k.sky, t, p, w, p.y + h) && |t| <= |k.sky| + 1
    ensures FloorLast(k.sky) ==> FloorLast(t)
    ensures PackOne(k, w, h) ==
            k.(sky := t, free := k.free + |k.sky| - |t|, placed := k.placed + [Rect(p.x, p.y, w, h)])
  {
    hide Splice, Sits, Covered, FloorLast;
    p := Best(k, w, h).value;
    BestSits(k, w, h);
    t := Splice(k.sky, p.at, p.x, w, p.y + h);
    PlaceCovers(k.sky, RoundUp(w, k.align), p, w, p.y + h);
    SpliceSize(k.sky, p.at, p.x, w, p.y + h);
    if FloorLast(k.sky) {
      FloorPlaceIsLeft(k, w, h);
      SpliceFloorLast(k.sky, p.at, p.x, w, p.y + h);
    }
  }

  /** Packing one rectangle keeps the invariant, whatever its size. */
  lemma PackOneKeeps(k: Packer, w: int, h: int)
    requires 0 < w && 0 < h && 0 < k.align && Inv(k)
    ensures Inv(PackOne(k, w, h))
  {
    if !Rejects(k, w, h) {
      var p, t := PackOneShape(k, w, h);
      PlaceKeeps(k, RoundUp(w, k.align), p, w, h, t);
    }
  }

  lemma PlaceKeeps(k: Packer, rw: int, p: Place, w: int, h: int, t: seq<Seg>)
    requires Inv(k) && Sits(k.sky, rw, p) && 0 < w <= rw && 0 < h && p.y + h <= k.height && 0 < k.free
    requires Covered(k.sky, t, p, w, p.y + h) && |t| <= |k.sky| + 1 && FloorLast(t)
    ensures Inv(k.(sky := t, free := k.free + |k.sky| - |t|, placed := k.placed + [Rect(p.x, p.y, w, h)]))
  {
    var r := Rect(p.x, p.y, w, h);
    KeepsUnder(k.sky, t, k.height, k.placed);
    NewIsUnder(k.sky, t, k.height, p, w, h);
    NewIsDisjoint(k, rw, p, w, h);
    AppendDisjoint(k.placed, r);
  }

  lemma KeepsUnder(s: seq<Seg>, t: seq<Seg>, height: int, rs: seq<Rect>)
    requires IsSkyline(s) && IsSkyline(t) && Width(t) == Width(s)
    requires forall c :: 0 <= c < Width(s) ==> Height(s, c) <= Height(t, c)
    requires forall i :: 0 <= i < |rs| ==> Under(s, height, rs[i])
    ensures forall i :: 0 <= i < |rs| ==> Under(t, height, rs[i])
  {
    forall i | 0 <= i < |rs| {
      StaysUnder(s, t, height, rs[i]);
    }
  }

  lemma NewIsUnder(s: seq<Seg>, t: seq<Seg>, height: int, p: Place, w: int, h: int)
    requires Covered(s, t, p, w, p.y + h) && 0 <= p.y && 0 < w && 0 < h && p.y + h <= height
    requires LowSkyline(s, height)
    ensures Under(t, height, Rect(p.x, p.y, w, h)) && LowSkyline(t, height)
  {
  }

  lemma NewIsDisjoint(k: Packer, rw: int, p: Place, w: int, h: int)
    requires Inv(k) && Sits(k.sky, rw, p) && 0 < w <= rw
    ensures forall i :: 0 <= i < |k.placed| ==> Disjoint(k.placed[i], Rect(p.x, p.y, w, h))
  {
    forall i | 0 <= i < |k.placed| {
      UnderIsDisjoint(k.sky, k.height, rw, p, w, h, k.placed[i]);
    }
  }

  lemma AppendDisjoint(rs: seq<Rect>, r: Rect)
    requires PairwiseDisjoint(rs) && forall i :: 0 <= i < |rs| ==> Disjoint(rs[i], r)
    ensures PairwiseDisjoint(rs + [r])
  {
  }

  /** A splice makes the list longer by at most one. */
  lemma SpliceSize(s: seq<Seg>, at: int, x: int, w: int, top: int)
    requires 0 <= at < |s| - 1
    ensures |Splice(s, at, x, w, top)| <= |s| + 1
  {
  }

  // ----- runs ----------------------------------------------------------------

  datatype Step =
    | Request(w: nat, h: nat)
    | AllowOutOfMem(allow: bool)
    | SetHeuristic(bestFit: bool)

  function CeilDiv(a: int, b: int): int
    requires 0 < b
  {
    (a + b - 1) / b
  }

  ghost function Init(width: int, height: int, numNodes: int): Packer
    requires 0 < numNodes
  {
    Packer(width, height, numNodes, CeilDiv(width, numNodes), false, [Seg(0, 0), Seg(width, 65535)], numNodes, [])
  }

  /** One call on the packer; an empty rectangle takes no space. */
  ghost function Apply(k: Packer, step: Step): Packer
    requires 0 < k.align && 0 < k.numNodes
  {
    match step
    case Request(w, h) => if w == 0 || h == 0 then k else PackOne(k, w, h)
    case AllowOutOfMem(allow) => k.(align := if allow then 1 else CeilDiv(k.width, k.numNodes))
    case SetHeuristic(bestFit) => k.(bestFit := bestFit)
  }

  ghost function Run(k: Packer, steps: seq<Step>): Packer
    requires Inv(k)
    ensures Inv(Run(k, steps)) && SameTarget(k, Run(k, steps))
    decreases |steps|
  {
    if steps == [] then k
    else
      ApplyKeeps(k, steps[0]);
      Run(Apply(k, steps[0]), steps[1..])
  }

  ghost predicate SameTarget(k: Packer, k': Packer) {
    k'.width == k.width && k'.height == k.height && k'.numNodes == k.numNodes
  }

  /** Place p is as low as a window at x, and left of it if they are at one level. */
  ghost predicate LowLeft(s: seq<Seg>, w: int, p: Place, x: int)
    requires IsSkyline(s) && 0 <= x && 0 < w && x + w <= Width(s)
  {
    var y := Highest(Profile(s), x, x + w);
    p.y < y || (p.y == y && p.x <= x)
  }

  /** Place p is as low as a window at x, leaves as little free at one level, and is left of it if
      they leave the same. */
  ghost predicate LowTight(s: seq<Seg>, w: int, p: Place, x: int)
    requires IsSkyline(s) && 0 <= x && 0 < w && x + w <= Width(s)
  {
    var y, free := Highest(Profile(s), x, x + w), FreeArea(s, x, w);
    p.y < y || (p.y == y && (p.waste < free || (p.waste == free && p.x <= x)))
  }

  /** What the two settings mean: without best-fit the lowest and then leftmost of all windows
      that start at a segment is chosen; with it the lowest, then tightest, then leftmost of all
      that start or end at one and fit in height. */
  lemma HeuristicsChoose(k: Packer, best: bool, w: int, h: int)
    requires Inv(k) && 0 < w && 0 < h
    ensures 0 < k.align && 0 < k.numNodes && IsSkyline(k.sky)
    ensures var k', s, rw := Apply(k, SetHeuristic(best)), k.sky, RoundUp(w, k.align);
            k'.align == k.align && (Best(k', w, h).Some? ==>
              var p := Best(k', w, h).value;
              && 0 <= p.x && p.x + rw <= Width(s) && p.waste == FreeArea(s, p.x, rw)
              && p.y == Highest(Profile(s), p.x, p.x + rw)
              && (!best ==> forall i :: FitsLeft(s, rw, i) ==> 0 <= s[i].x && LowLeft(s, rw, p, s[i].x))
              && (best ==> forall i :: FitsLeft(s, rw, i) ==>
                    0 <= s[i].x && (LeftPlace(s, rw, i).y + h <= k.height ==> LowTight(s, rw, p, s[i].x)))
              && (best ==> forall i :: FitsRight(s, rw, i) ==>
                    s[i].x <= Width(s) && (RightPlace(s, rw, i).y + h <= k.height ==> LowTight(s, rw, p, s[i].x - rw))))
  {
    hide Highest, FreeArea, Profile, Inv, Best, LeftPlace, RightPlace, LowLeft, LowTight;
    InvBasics(k);
    var k', s, rw := Apply(k, SetHeuristic(best)), k.sky, RoundUp(w, k.align);
    if Best(k', w, h).Some? {
      var p := Best(k', w, h).value;
      BestWaste(k', w, h);
      SitsWithin(s, rw, p);
      forall i | FitsLeft(s, rw, i)
        ensures 0 <= s[i].x
        ensures !best ==> LowLeft(s, rw, p, s[i].x)
        ensures best && LeftPlace(s, rw, i).y + h <= k.height ==> LowTight(s, rw, p, s[i].x)
      {
        ChosenOverLeft(k', w, h, i);
      }
      forall i | best && FitsRight(s, rw, i)
        ensures s[i].x <= Width(s)
        ensures RightPlace(s, rw, i).y + h <= k.height ==> LowTight(s, rw, p, s[i].x - rw)
      {
        ChosenOverRight(k', w, h, i);
      }
    }
  }

  lemma ChosenOverLeft(k: Packer, w: int, h: int, i: int)
    requires 0 < w && 0 < k.align && Best(k, w, h).Some? && IsSkyline(k.sky) && FitsLeft(k.sky, RoundUp(w, k.align), i)
    ensures 0 <= k.sky[i].x
    ensures var p, rw := Best(k, w, h).value, RoundUp(w, k.align);
            && (!k.bestFit ==> LowLeft(k.sky, rw, p, k.sky[i].x))
            && (k.bestFit && LeftPlace(k.sky, rw, i).y + h <= k.height ==> LowTight(k.sky, rw, p, k.sky[i].x))
  {
    hide Highest, FreeArea, Profile, Best, IsPlace, LowLeft, LowTight, Better, IsSkyline;
    var rw := RoundUp(w, k.align);
    FirstIsLeast(k.sky, i);
    BestFits(k, w, h);
    BestIsOptimal(k, w, h);
    if k.bestFit ==> LeftPlace(k.sky, rw, i).y + h <= k.height {
      LeftIsPlace(k, rw, h, i);
      NotBetter(k.sky, rw, k.bestFit, LeftPlace(k.sky, rw, i), Best(k, w, h).value);
    }
  }

  lemma ChosenOverRight(k: Packer, w: int, h: int, i: int)
    requires 0 < w && 0 < k.align && Best(k, w, h).Some? && IsSkyline(k.sky) && FitsRight(k.sky, RoundUp(w, k.align), i)
    ensures k.sky[i].x <= Width(k.sky)
    ensures var p, rw := Best(k, w, h).value, RoundUp(w, k.align);
            k.bestFit && RightPlace(k.sky, rw, i).y + h <= k.height ==> LowTight(k.sky, rw, p, k.sky[i].x - rw)
  {
    hide Highest, FreeArea, Profile, Best, IsPlace, LowLeft, LowTight, Better, IsSkyline;
    var rw := RoundUp(w, k.align);
    AtMostWidth(k.sky, i);
    BestFits(k, w, h);
    BestIsOptimal(k, w, h);
    if k.bestFit && RightPlace(k.sky, rw, i).y + h <= k.height {
      RightIsPlace(k, rw, h, i);
      NotBetter(k.sky, rw, true, RightPlace(k.sky, rw, i), Best(k, w, h).value);
    }
  }

  lemma FirstIsLeast(s: seq<Seg>, i: int)
    requires IsSkyline(s) && 0 <= i < |s|
    ensures 0 <= s[i].x
  {
    assert s[0].x <= s[i].x;
  }

  lemma BestFits(k: Packer, w: int, h: int)
    requires 0 < w && 0 < k.align && Best(k, w, h).Some?
    ensures RoundUp(w, k.align) <= k.width && h <= k.height
  {
  }

  lemma LeftIsPlace(k: Packer, rw: int, h: int, i: int)
    requires IsSkyline(k.sky) && 0 < rw && FitsLeft(k.sky, rw, i)
    requires k.bestFit ==> LeftPlace(k.sky, rw, i).y + h <= k.height
    ensures IsPlace(k, rw, h, LeftPlace(k.sky, rw, i)) && 0 <= k.sky[i].x
  {
    hide Highest, FreeArea, Profile;
    assert Lefts(k, rw, h)(i) == Some(LeftPlace(k.sky, rw, i));
  }

  lemma RightIsPlace(k: Packer, rw: int, h: int, i: int)
    requires IsSkyline(k.sky) && 0 < rw && FitsRight(k.sky, rw, i) && k.bestFit
    requires RightPlace(k.sky, rw, i).y + h <= k.height
    ensures IsPlace(k, rw, h, RightPlace(k.sky, rw, i)) && k.sky[i].x <= Width(k.sky)
  {
    hide Highest, FreeArea, Profile;
    AtMostWidth(k.sky, i);
    assert Rights(k, rw, h)(i) == Some(RightPlace(k.sky, rw, i));
  }

  lemma NotBetter(s: seq<Seg>, w: int, best: bool, q: Place, p: Place)
    requires IsSkyline(s) && 0 < w && 0 <= q.x && q.x + w <= Width(s)
    requires q.y == Highest(Profile(s), q.x, q.x + w) && q.waste == FreeArea(s, q.x, w) && !Better(best, q, p)
    ensures if best then LowTight(s, w, p, q.x) else LowLeft(s, w, p, q.x)
  {
    hide Highest, FreeArea, Profile;
  }

  lemma BestWaste(k: Packer, w: int, h: int)
    requires 0 < w && 0 < k.align && Best(k, w, h).Some?
    ensures Sits(k.sky, RoundUp(w, k.align), Best(k, w, h).value) && 0 <= Best(k, w, h).value.x
    ensures Best(k, w, h).value.waste == FreeArea(k.sky, Best(k, w, h).value.x, RoundUp(w, k.align))
  {
    hide Highest, FreeArea, Profile, Best, IsPlace, Sits;
    BestSits(k, w, h);
    BestFits(k, w, h);
    BestIsOptimal(k, w, h);
    SitsWithin(k.sky, RoundUp(w, k.align), Best(k, w, h).value);
    PlaceWaste(k, RoundUp(w, k.align), h, Best(k, w, h).value);
  }

  lemma PlaceWaste(k: Packer, rw: int, h: int, p: Place)
    requires IsPlace(k, rw, h, p) && 0 <= p.x && IsSkyline(k.sky) && 0 < rw && p.x + rw <= Width(k.sky)
    ensures p.waste == FreeArea(k.sky, p.x, rw)
  {
    hide Highest, FreeArea, Profile, IsSkyline;
    var i :| 0 <= i < |k.sky| && (Lefts(k, rw, h)(i) == Some(p) || Rights(k, rw, h)(i) == Some(p));
    if Lefts(k, rw, h)(i) == Some(p) {
      assert p == LeftPlace(k.sky, rw, i);
    } else {
      assert p == RightPlace(k.sky, rw, i);
    }
  }

  lemma ApplyKeeps(k: Packer, step: Step)
    requires Inv(k)
    ensures Inv(Apply(k, step)) && SameTarget(k, Apply(k, step))
  {
    hide Best, Splice, Covered, Sits;
    assert 0 < k.width;
    assert 0 < CeilDiv(k.width, k.numNodes) by { CeilDivPositive(k.width, k.numNodes); }
    if step.Request? && 0 < step.w && 0 < step.h {
      PackOneKeeps(k, step.w, step.h);
    }
  }

  lemma {:induction false} RunSnoc(k: Packer, steps: seq<Step>, step: Step)
    requires Inv(k)
    ensures Run(k, steps + [step]) == Apply(Run(k, steps), step)
    decreases |steps|
  {
    hide Inv, PackOne;
    InvBasics(k);
    InvBasics(Run(k, steps));
    ApplyKeeps(k, (steps + [step])[0]);
    if steps == [] {
      assert (steps + [step])[1..] == [];
    } else {
      assert (steps + [step])[1..] == steps[1..] + [step];
      RunSnoc(Apply(k, steps[0]), steps[1..], step);
    }
  }

  lemma CeilDivPositive(a: int, b: int)
    requires 0 < a && 0 < b
    ensures 0 < CeilDiv(a, b)
    ensures (a - 1) < CeilDiv(a, b) * b <= a + b - 1
  {
    assert a + b - 1 == b * CeilDiv(a, b) + (a + b - 1) % b;
  }

  lemma InitInv(width: int, height: int, numNodes: int)
    requires 0 < width && 0 <= height && 0 < numNodes
    ensures Inv(Init(width, height, numNodes))
  {
    CeilDivPositive(width, numNodes);
    forall c | 0 <= c < width ensures Height(Init(width, height, numNodes).sky, c) == 0 {
      HeightIn(Init(width, height, numNodes).sky, 0, c);
    }
  }

  /** Whatever is requested, in whatever order, with either heuristic and any
      change of alignment on the way: all packed rectangles lie inside the
      target and no two of them overlap. */
  lemma RunsAreSafe(width: int, height: int, numNodes: int, steps: seq<Step>)
    requires 0 < width && 0 <= height && 0 < numNodes
    ensures Inv(Init(width, height, numNodes))
    ensures var k := Run(Init(width, height, numNodes), steps);
            && (forall r :: r in k.placed ==> 0 <= r.x && r.x + r.w <= width && 0 <= r.y && r.y + r.h <= height)
            && PairwiseDisjoint(k.placed)
  {
    InitInv(width, height, numNodes);
    var k := Run(Init(width, height, numNodes), steps);
    forall r | r in k.placed ensures 0 <= r.x && r.x + r.w <= width && 0 <= r.y && r.y + r.h <= height {
      var i :| 0 <= i < |k.placed| && k.placed[i] == r;
      assert Under(k.sky, k.height, k.placed[i]);
    }
  }

  /** In every run, wherever a window starts, the waste that the loop computes for it is
      the area left free: what is on the floor is never left of what is above it. */
  lemma RunsComputeFreeArea(width: int, height: int, numNodes: int, steps: seq<Step>, i: int, x0: int, w: int)
    requires 0 < width && 0 <= height && 0 < numNodes && 0 < w && x0 + w <= width
    ensures Inv(Init(width, height, numNodes))
    ensures var s := Run(Init(width, height, numNodes), steps).sky;
            && IsSkyline(s) && Width(s) == width
            && (0 <= i < |s| - 1 && s[i].x <= x0 < s[i + 1].x ==>
                  0 <= x0 && ComputedWaste(s, i, x0, w) == FreeArea(s, x0, w))
  {
    hide Inv, IsSkyline, FloorLast, FreeArea, ComputedWaste;
    InitInv(width, height, numNodes);
    var s := Run(Init(width, height, numNodes), steps).sky;
    InvBasics(Run(Init(width, height, numNodes), steps));
    if 0 <= i < |s| - 1 && s[i].x <= x0 < s[i + 1].x {
      ComputedWasteIsFreeArea(s, i, x0, w);
    }
  }

  // ----- when the nodes suffice ----------------------------------------------

  lemma {:induction false} DistinctColumns(s: seq<Seg>, n: nat)
    requires IsSkyline(s) && n < |s|
    ensures n <= s[n].x
  {
    if n != 0 {
      DistinctColumns(s, n - 1);
    }
  }

  /** A rectangle is turned away for want of a node alone. */
  ghost predicate OutOfNodes(k: Packer, w: int, h: int)
    requires 0 < w && 0 < k.align
  {
    Best(k, w, h).Some? && Best(k, w, h).value.y + h <= k.height && k.free == 0
  }

  /** With at least as many nodes as the target is wide, one is always free. */
  lemma EnoughNodes(k: Packer)
    requires Inv(k) && k.width <= k.numNodes
    ensures 0 < k.free
  {
    DistinctColumns(k.sky, |k.sky| - 1);
  }

  lemma NotOutOfNodes(k: Packer, w: int, h: int)
    requires Inv(k) && 0 < w && 0 < h && 0 <= k.height
    requires k.width <= k.numNodes ||
             (TooSmall(k.width, k.height, k.numNodes) && k.align == CeilDiv(k.width, k.numNodes))
    ensures !OutOfNodes(k, w, h)
  {
    hide Inv, Best;
    InvBasics(k);
    if k.width <= k.numNodes {
      EnoughNodes(k);
    } else if OutOfNodes(k, w, h) {
      BestSits(k, w, h);
      if k.height == 1 {
        FloorTakesNodes(k, w, h);
      }
    }
  }

  /** A place on the floor is right of all segments but one. */
  lemma FloorTakesNodes(k: Packer, w: int, h: int)
    requires Inv(k) && 0 < w && 0 < h && k.height == 1 && OutOfNodes(k, w, h)
    ensures k.numNodes + k.align <= k.width
  {
    hide Best, Highest;
    BestSits(k, w, h);
    var p := Best(k, w, h).value;
    SitsAbove(k.sky, RoundUp(w, k.align), p, p.x);
    HeightIn(k.sky, p.at, p.x);
    DistinctColumns(k.sky, p.at);
    RoundUpPositive(w, k.align);
  }

  lemma RoundUpPositive(w: int, align: int)
    requires 0 < w && 0 < align
    ensures align <= RoundUp(w, align)
  {
    var r := RoundUp(w, align);
    assert r == align * (r / align) + r % align;
  }

  ghost predicate OnlyRequests(steps: seq<Step>) {
    forall i :: 0 <= i < |steps| ==> steps[i].Request?
  }

  /** The skyline after m unit squares side by side. */
  ghost predicate IsStair(s: seq<Seg>, m: int, width: int) {
    && 0 <= m && |s| == m + 2
    && (forall i :: 0 <= i < m ==> s[i] == Seg(i, 1))
    && s[m] == Seg(m, 0) && s[m + 1].x == width
  }

  lemma StairHeight(s: seq<Seg>, m: int, c: int)
    requires IsSkyline(s) && IsStair(s, m, Width(s)) && 0 <= c < Width(s)
    ensures Height(s, c) == if c < m then 1 else 0
  {
    HeightIn(s, if c < m then c else m, c);
  }

  lemma StairLevel(s: seq<Seg>, m: int, lo: int, hi: int)
    requires IsSkyline(s) && IsStair(s, m, Width(s)) && 0 <= lo < hi <= Width(s)
    ensures Highest(Profile(s), lo, hi) <= 1 && (m <= lo ==> Highest(Profile(s), lo, hi) == 0)
  {
    hide IsSkyline, IsStair;
    HighestIsMaximum(Profile(s), lo, hi);
    forall c | lo <= c < hi ensures Profile(s)[c] == if c < m then 1 else 0 {
      StairHeight(s, m, c);
    }
  }

  /** The flat part of a stair takes a window at its left end, on the floor. */
  lemma StairCandidate(k: Packer, m: int, h: int)
    requires IsSkyline(k.sky) && Width(k.sky) == k.width && IsStair(k.sky, m, k.width) && !k.bestFit && 0 < k.align
    requires m + k.align <= k.width
    ensures IsPlace(k, k.align, h, LeftPlace(k.sky, k.align, m))
    ensures LeftPlace(k.sky, k.align, m).y == 0
  {
    hide Highest, FreeArea, Profile;
    assert Lefts(k, k.align, h)(m) == Some(LeftPlace(k.sky, k.align, m));
    StairLevel(k.sky, m, m, m + k.align);
  }

  /** While a rounded window is left on the floor, bottom-left puts the next unit
      square right beside the last one. */
  lemma StairChoice(k: Packer, m: int)
    requires IsSkyline(k.sky) && Width(k.sky) == k.width && IsStair(k.sky, m, k.width) && !k.bestFit && 0 < k.align
    requires m + k.align <= k.width && 1 <= k.height
    ensures Best(k, 1, 1).Some?
    ensures var p := Best(k, 1, 1).value; p.x == m && p.y == 0 && p.at == m
  {
    hide Lefts, Rights, IsPlace, Candidates;
    assert RoundUp(1, k.align) == k.align;
    StairCandidate(k, m, 1);
    BestIsOptimal(k, 1, 1);
    BestSits(k, 1, 1);
    var p := Best(k, 1, 1).value;
    SitsAbove(k.sky, k.align, p, p.x);
    StairHeight(k.sky, m, p.x);
  }

  lemma StairStep(k: Packer, m: int)
    requires IsSkyline(k.sky) && Width(k.sky) == k.width && IsStair(k.sky, m, k.width) && !k.bestFit && 0 < k.align
    requires m + k.align <= k.width && m + 1 < k.width && 1 <= k.height && k.free != 0
    ensures var k' := PackOne(k, 1, 1);
            && IsStair(k'.sky, m + 1, k.width) && k'.free == k.free - 1
            && SameTarget(k, k') && k'.align == k.align && k'.bestFit == k.bestFit
  {
    hide Best;
    StairChoice(k, m);
    var p := Best(k, 1, 1).value;
    SpliceParts(k.sky, p.at, p.x, 1, 1);
  }

  function Units(n: nat): seq<Step> {
    if n == 0 then [] else [Request(1, 1)] + Units(n - 1)
  }

  lemma {:induction false} UnitsAreRequests(n: nat)
    ensures OnlyRequests(Units(n))
  {
    if n != 0 {
      UnitsAreRequests(n - 1);
    }
  }

  /** Unit squares use up the nodes one by one. */
  lemma {:induction false} StairRun(k: Packer, m: int, n: nat)
    requires Inv(k) && IsStair(k.sky, m, k.width) && !k.bestFit && k.free == n
    requires m + n < k.width && (0 < n ==> m + n - 1 + k.align <= k.width) && 1 <= k.height
    ensures var k' := Run(k, Units(n));
            && IsStair(k'.sky, m + n, k.width) && k'.free == 0
            && SameTarget(k, k') && k'.align == k.align && !k'.bestFit
    decreases n
  {
    hide PackOne, Splice, IsStair;
    if n != 0 {
      InvBasics(k);
      var k1 := Apply(k, Request(1, 1));
      ApplyKeeps(k, Request(1, 1));
      StairStep(k, m);
      StairRun(k1, m + 1, n - 1);
      assert Units(n)[1..] == Units(n - 1);
      assert Units(n)[0] == Request(1, 1);
    }
  }

  /** After numNodes unit squares the next one fits, but there is no node for it. */
  lemma StairIsStuck(k: Packer, m: int)
    requires IsSkyline(k.sky) && Width(k.sky) == k.width && IsStair(k.sky, m, k.width) && !k.bestFit && 0 < k.align
    requires 0 < m && k.align <= k.width && 2 <= k.height && k.free == 0
    ensures OutOfNodes(k, 1, 1)
  {
    hide Lefts, Rights, IsPlace, Candidates;
    assert RoundUp(1, k.align) == k.align;
    LowCandidate(k, m);
    BestIsOptimal(k, 1, 1);
  }

  /** Or even the floor has room for the next one. */
  lemma FloorIsStuck(k: Packer, m: int)
    requires IsSkyline(k.sky) && Width(k.sky) == k.width && IsStair(k.sky, m, k.width) && !k.bestFit && 0 < k.align
    requires 0 < m && m + k.align <= k.width && 1 <= k.height && k.free == 0
    ensures OutOfNodes(k, 1, 1)
  {
    hide Lefts, Rights, IsPlace, Candidates;
    assert RoundUp(1, k.align) == k.align;
    StairCandidate(k, m, 1);
    BestIsOptimal(k, 1, 1);
  }

  lemma LowCandidate(k: Packer, m: int)
    requires IsSkyline(k.sky) && Width(k.sky) == k.width && IsStair(k.sky, m, k.width) && !k.bestFit && 0 < k.align
    requires 0 < m && k.align <= k.width
    ensures IsPlace(k, k.align, 1, LeftPlace(k.sky, k.align, 0))
    ensures LeftPlace(k.sky, k.align, 0).y <= 1
  {
    hide Highest, FreeArea, Profile;
    assert Lefts(k, k.align, 1)(0) == Some(LeftPlace(k.sky, k.align, 0));
    StairLevel(k.sky, m, 0, k.align);
  }

  lemma CeilDivFits(width: int, n: int)
    requires 0 < n < width
    ensures 0 < CeilDiv(width, n) && n - 1 + CeilDiv(width, n) <= width && CeilDiv(width, n) <= width
  {
    var q, d := CeilDiv(width, n), width - n;
    CeilDivPositive(width, n);
    if d + 2 <= q {
      Monotone(d + 2, q, n);
      Monotone(1, n, d);
      Expand(d, n);
    }

  }

  lemma Monotone(a: int, b: int, n: int)
    requires a <= b && 0 <= n
    ensures a * n <= b * n
  {
  }

  lemma Expand(d: int, n: int)
    ensures (d + 2) * n == d * n + 2 * n && d * n == n * d
  {
  }

  /** The widths are rounded throughout: no call allows to run out of nodes. */
  ghost predicate Quantized(steps: seq<Step>) {
    forall i :: 0 <= i < |steps| ==> !(steps[i].AllowOutOfMem? && steps[i].allow)
  }

  ghost predicate EverOut(k: Packer, steps: seq<Step>, w: int, h: int)
    requires Inv(k) && 0 < w && 0 < h
  {
    OutOfNodes(Run(k, steps), w, h)
  }

  /** When the nodes suffice although there are fewer than columns: nothing fits, or the
      target is one high and too narrow for one rounded width beside all the nodes. */
  predicate TooSmall(width: int, height: int, numNodes: int)
    requires 0 < numNodes
  {
    height == 0 || (height == 1 && width < numNodes + CeilDiv(width, numNodes))
  }

  /** While widths are rounded, no run is ever out of nodes exactly when there are at least
      as many nodes as the target is wide, or it is too small.  So the rounding does not do
      what it is for, since rectangles are spliced with the width they have. */
  lemma NodesSufficeIff(width: int, height: int, numNodes: int)
    requires 0 < width && 0 <= height && 0 < numNodes
    ensures Inv(Init(width, height, numNodes))
    ensures (forall steps, w, h :: Quantized(steps) && 0 < w && 0 < h ==>
                     !EverOut(Init(width, height, numNodes), steps, w, h))
            <==> width <= numNodes || TooSmall(width, height, numNodes)
  {
    hide PackOne, Splice, OutOfNodes, Inv, Run;
    var k := Init(width, height, numNodes);
    InitInv(width, height, numNodes);
    if width <= numNodes || TooSmall(width, height, numNodes) {
      forall steps, w, h | Quantized(steps) && 0 < w && 0 < h ensures !EverOut(k, steps, w, h) {
        RunKeepsAlign(k, steps);
        NotOutOfNodes(Run(k, steps), w, h);
      }
    } else {
      UnitsRunOut(width, height, numNodes);
      assert EverOut(k, Units(numNodes), 1, 1);
    }
  }

  /** Over all runs, also those that allow to run out of nodes, only the number of nodes counts. */
  lemma NodesSufficeUnroundedIff(width: int, height: int, numNodes: int)
    requires 0 < width && 1 <= height && 0 < numNodes
    ensures Inv(Init(width, height, numNodes))
    ensures (forall steps, w, h :: 0 < w && 0 < h ==> !EverOut(Init(width, height, numNodes), steps, w, h))
            <==> width <= numNodes
  {
    hide PackOne, Splice, OutOfNodes, Inv, Run;
    var k := Init(width, height, numNodes);
    InitInv(width, height, numNodes);
    if width <= numNodes {
      forall steps, w, h | 0 < w && 0 < h ensures !EverOut(k, steps, w, h) {
        NotOutOfNodes(Run(k, steps), w, h);
      }
    } else {
      var steps := NodesRunOut(width, height, numNodes);
      assert EverOut(k, steps, 1, 1);
    }
  }

  lemma {:induction false} RunKeepsAlign(k: Packer, steps: seq<Step>)
    requires Inv(k) && k.align == CeilDiv(k.width, k.numNodes) && Quantized(steps)
    ensures Run(k, steps).align == CeilDiv(k.width, k.numNodes)
    decreases |steps|
  {
    hide Inv, Best, Splice, Rejects;
    InvBasics(k);
    if steps != [] {
      ApplyKeeps(k, steps[0]);
      RunKeepsAlign(Apply(k, steps[0]), steps[1..]);
    }
  }

  lemma NodesRunOut(width: int, height: int, numNodes: int) returns (steps: seq<Step>)
    requires 0 < numNodes < width && 1 <= height
    ensures Inv(Init(width, height, numNodes))
    ensures OutOfNodes(Run(Init(width, height, numNodes), steps), 1, 1)
  {
    hide PackOne, Splice, IsStair, OutOfNodes;
    var k := Init(width, height, numNodes);
    InitInv(width, height, numNodes);
    steps := [AllowOutOfMem(true)] + Units(numNodes);
    var k1 := Apply(k, steps[0]);
    ApplyKeeps(k, steps[0]);
    InitStair(width, height, numNodes);
    StairRun(k1, 0, numNodes);
    assert steps[1..] == Units(numNodes);
    InvBasics(Run(k1, Units(numNodes)));
    FloorIsStuck(Run(k1, Units(numNodes)), numNodes);
  }

  lemma InitStair(width: int, height: int, numNodes: int)
    requires 0 < numNodes
    ensures IsStair(Init(width, height, numNodes).sky, 0, width)
  {
  }

  /** Requests for unit squares alone use up the nodes, with nothing set up differently. */
  lemma UnitsRunOut(width: int, height: int, numNodes: int)
    requires 0 < numNodes < width && 1 <= height && !TooSmall(width, height, numNodes)
    ensures Inv(Init(width, height, numNodes)) && Quantized(Units(numNodes))
    ensures OutOfNodes(Run(Init(width, height, numNodes), Units(numNodes)), 1, 1)
  {
    hide PackOne, Splice, IsStair, OutOfNodes;
    var k := Init(width, height, numNodes);
    InitInv(width, height, numNodes);
    CeilDivFits(width, numNodes);
    InitStair(width, height, numNodes);
    StairRun(k, 0, numNodes);
    UnitsAreRequests(numNodes);
    InvBasics(Run(k, Units(numNodes)));
    if height == 1 {
      FloorIsStuck(Run(k, Units(numNodes)), numNodes);
    } else {
      StairIsStuck(Run(k, Units(numNodes)), numNodes);
    }
  }

  // ----- when the skyline is exact -------------------------------------------

  ghost predicate TopAt(rs: seq<Rect>, c: int, y: int) {
    exists i :: 0 <= i < |rs| && rs[i].x <= c < rs[i].x + rs[i].w && rs[i].y + rs[i].h == y
  }

  /** Every column is at the floor or as high as the top of a rectangle over it. */
  ghost predicate Exact(s: seq<Seg>, rs: seq<Rect>) {
    && IsSkyline(s)
    && forall c :: 0 <= c < Width(s) ==> Height(s, c) == 0 || TopAt(rs, c, Height(s, c))
  }

  /** Without quantization the new segment covers just the rectangle. */
  lemma CoverEndExact(s: seq<Seg>, p: Place, w: int)
    requires Sits(s, w, p)
    ensures CoverEnd(s, p.at, p.x, w) == p.x + w
  {
  }

  lemma ExactCover(s: seq<Seg>, p: Place, w: int, top: int)
    requires Sits(s, w, p) && 0 <= top
    ensures Raised(s, Splice(s, p.at, p.x, w, top), p.x, p.x + w, top)
  {
    hide Splice, Raised;
    CoverEndExact(s, p, w);
    SpliceRaises(s, p.at, p.x, w, top);
  }

  lemma PackOneExact(k: Packer, w: int, h: int)
    requires Exact(k.sky, k.placed) && k.align == 1 && 0 < w && 0 < h
    ensures Exact(PackOne(k, w, h).sky, PackOne(k, w, h).placed)
  {
    hide Best, Splice, Exact;
    if !Rejects(k, w, h) {
      PlacedExact(k, w, h);
    }
  }

  lemma PlacedExact(k: Packer, w: int, h: int)
    requires Exact(k.sky, k.placed) && k.align == 1 && 0 < w && 0 < h && !Rejects(k, w, h)
    ensures Exact(PackOne(k, w, h).sky, PackOne(k, w, h).placed)
  {
    hide Best, Splice, Covered, Rejects, Exact, Raised, PackOne, Sits;
    assert RoundUp(w, 1) == w;
    var p, t := PackOneShape(k, w, h);
    ExactCover(k.sky, p, w, p.y + h);
    RaisedExact(k.sky, t, p, w, h, k.placed);
  }

  lemma RaisedExact(s: seq<Seg>, t: seq<Seg>, p: Place, w: int, h: int, rs: seq<Rect>)
    requires Raised(s, t, p.x, p.x + w, p.y + h) && Exact(s, rs)
    ensures Exact(t, rs + [Rect(p.x, p.y, w, h)])
  {
    var rs' := rs + [Rect(p.x, p.y, w, h)];
    forall c | 0 <= c < Width(t) && Height(t, c) != 0 ensures TopAt(rs', c, Height(t, c)) {
      if p.x <= c < p.x + w {
        assert rs'[|rs|].x <= c;
      } else {
        var i :| 0 <= i < |rs| && rs[i].x <= c < rs[i].x + rs[i].w && rs[i].y + rs[i].h == Height(s, c);
        assert rs'[i] == rs[i];
      }
    }
  }

  /** With enough nodes, the skyline is in every run exactly the upper outline of
      what has been packed (never below it, by the invariant). */
  lemma RunsAreExact(width: int, height: int, numNodes: int, steps: seq<Step>)
    requires 0 < width <= numNodes && 0 <= height
    ensures Inv(Init(width, height, numNodes))
    ensures var k := Run(Init(width, height, numNodes), steps); Exact(k.sky, k.placed)
  {
    hide Inv, Exact;
    InitInv(width, height, numNodes);
    CeilDivOne(width, numNodes);
    InitExact(width, height, numNodes);
    ExactRun(Init(width, height, numNodes), steps);
  }

  lemma InitExact(width: int, height: int, numNodes: int)
    requires 0 < width && 0 < numNodes
    ensures var k := Init(width, height, numNodes); Exact(k.sky, k.placed)
  {
    var s := Init(width, height, numNodes).sky;
    forall c | 0 <= c < width ensures Height(s, c) == 0 {
      HeightIn(s, 0, c);
    }
  }

  lemma {:induction false} ExactRun(k: Packer, steps: seq<Step>)
    requires Inv(k) && Exact(k.sky, k.placed) && k.align == 1 && k.width <= k.numNodes
    ensures Exact(Run(k, steps).sky, Run(k, steps).placed)
    decreases |steps|
  {
    if steps != [] {
      hide Best, Splice, Covered, PackOne, Exact;
      ApplyKeeps(k, steps[0]);
      ApplyExact(k, steps[0]);
      ExactRun(Apply(k, steps[0]), steps[1..]);
    }
  }

  lemma ApplyExact(k: Packer, step: Step)
    requires Inv(k) && Exact(k.sky, k.placed) && k.align == 1 && k.width <= k.numNodes
    ensures Exact(Apply(k, step).sky, Apply(k, step).placed) && Apply(k, step).align == 1
            && SameTarget(k, Apply(k, step))
  {
    hide Best, Splice, Covered, Sits, Exact, Inv, PackOne, CeilDiv;
    InvBasics(k);
    match step {
      case Request(w, h) =>
        if 0 < w && 0 < h {
          PackOneExact(k, w, h);
          PackOneSame(k, w, h);
        }
      case AllowOutOfMem(_) =>
        CeilDivOne(k.width, k.numNodes);
      case SetHeuristic(_) =>
    }
  }

  lemma PackOneSame(k: Packer, w: int, h: int)
    requires 0 < w && 0 < k.align
    ensures SameTarget(k, PackOne(k, w, h)) && PackOne(k, w, h).align == k.align
  {
    hide Best, Splice, Rejects;
  }

  lemma CeilDivOne(width: int, n: int)
    requires 0 < width <= n
    ensures CeilDiv(width, n) == 1
  {
    CeilDivPositive(width, n);
  }
}
