/** Heights per column, and what can be said about a window of columns. */
module Columns {

  /** Highest column among lo, ..., hi - 1 (0 over no column). */
  ghost function Highest(h: seq<int>, lo: int, hi: int): (y: int)
    requires 0 <= lo <= hi <= |h|
    ensures 0 <= y
    decreases hi - lo
  {
    if lo == hi then 0
    else
      var m := Highest(h, lo, hi - 1);
      if m < h[hi - 1] then h[hi - 1] else m
  }

  /** Highest is the least upper bound of the columns of a window. */
  lemma {:induction false} HighestIsMaximum(h: seq<int>, lo: int, hi: int)
    requires 0 <= lo < hi <= |h| && forall c :: 0 <= c < |h| ==> 0 <= h[c]
    ensures forall c :: lo <= c < hi ==> h[c] <= Highest(h, lo, hi)
    ensures exists c :: lo <= c < hi && h[c] == Highest(h, lo, hi)
    decreases hi - lo
  {
    if lo < hi - 1 {
      HighestIsMaximum(h, lo, hi - 1);
    }
    if Highest(h, lo, hi) == h[hi - 1] {
      assert lo <= hi - 1 < hi && h[hi - 1] == Highest(h, lo, hi);
    } else {
      var c :| lo <= c < hi - 1 && h[c] == Highest(h, lo, hi - 1);
      assert lo <= c < hi && h[c] == Highest(h, lo, hi);
    }
  }

  ghost predicate Flat(h: seq<int>, lo: int, hi: int, y: int)
    requires 0 <= lo <= hi <= |h|
  {
    forall c :: lo <= c < hi ==> h[c] == y
  }

  /** Extending a window over columns of one height. */
  lemma {:induction false} HighestStep(h: seq<int>, lo: int, mid: int, hi: int, y: int)
    requires 0 <= lo <= mid < hi <= |h| && Flat(h, mid, hi, y)
    ensures Highest(h, lo, hi) == if Highest(h, lo, mid) < y then y else Highest(h, lo, mid)
    decreases hi
  {
    if mid < hi - 1 {
      HighestStep(h, lo, mid, hi - 1, y);
    }
  }

  /** Area left free under the level y over the columns lo, ..., hi - 1. */
  ghost function Waste(h: seq<int>, lo: int, hi: int, y: int): int
    requires 0 <= lo <= hi <= |h|
    decreases hi - lo
  {
    if lo == hi then 0 else Waste(h, lo, hi - 1, y) + (y - h[hi - 1])
  }

  lemma {:induction false} WasteRaise(h: seq<int>, lo: int, hi: int, y: int, z: int)
    requires 0 <= lo <= hi <= |h|
    ensures Waste(h, lo, hi, z) == Waste(h, lo, hi, y) + (hi - lo) * (z - y)
    decreases hi - lo
  {
    if lo < hi {
      WasteRaise(h, lo, hi - 1, y, z);
      OneMore(hi - lo, z - y);
    }
  }

  lemma {:induction false} WasteStep(h: seq<int>, lo: int, mid: int, hi: int, y: int, level: int)
    requires 0 <= lo <= mid <= hi <= |h| && Flat(h, mid, hi, y)
    ensures Waste(h, lo, hi, level) == Waste(h, lo, mid, level) + (hi - mid) * (level - y)
    decreases hi
  {
    if mid < hi {
      WasteStep(h, lo, mid, hi - 1, y, level);
      OneMore(hi - mid, level - y);
    }
  }

  /** Extending a window over columns of one height: the level rises, or the
      free area grows under the level it has. */
  lemma WindowStep(h: seq<int>, lo: int, mid: int, hi: int, y: int)
    requires 0 <= lo <= mid < hi <= |h| && Flat(h, mid, hi, y)
    ensures var m := Highest(h, lo, mid);
            if m < y then
              && Highest(h, lo, hi) == y
              && Waste(h, lo, hi, y) == Waste(h, lo, mid, m) + (mid - lo) * (y - m)
            else
              && Highest(h, lo, hi) == m
              && Waste(h, lo, hi, m) == Waste(h, lo, mid, m) + (hi - mid) * (m - y)
  {
    var m := Highest(h, lo, mid);
    HighestStep(h, lo, mid, hi, y);
    if m < y {
      WasteRaise(h, lo, mid, m, y);
      WasteStep(h, lo, mid, hi, y, y);
    } else {
      WasteStep(h, lo, mid, hi, y, m);
    }
  }

  /** Over the floor nothing is left free. */
  lemma FloorWindow(h: seq<int>, lo: int, hi: int)
    requires 0 <= lo < hi <= |h| && Flat(h, lo, hi, 0)
    ensures Highest(h, lo, hi) == 0 && Waste(h, lo, hi, 0) == 0
  {
    WindowStep(h, lo, lo, hi, 0);
  }

  lemma OneMore(n: int, d: int)
    ensures n * d == (n - 1) * d + d
  {
  }
}

/** The skyline of the rectangle packer as a value: the x and y fields of the
    active list, in list order.  Every element but the last is a horizontal
    segment that reaches to the next element's x; the last is the sentinel at
    the right edge of the target. */
module Skyline {
  import opened Columns

  datatype Seg = Seg(x: int, y: int)

  ghost predicate IsSkyline(s: seq<Seg>) {
    && 2 <= |s|
    && s[0].x == 0
    && (forall i, j :: 0 <= i < j < |s| ==> s[i].x < s[j].x)
    && (forall i :: 0 <= i < |s| ==> 0 <= s[i].y)
  }

  ghost function Width(s: seq<Seg>): int
    requires s != []
  {
    s[|s| - 1].x
  }

  /** Index of the segment that covers column c, searching from segment i. */
  ghost function IndexFrom(s: seq<Seg>, c: int, i: int): (k: int)
    requires IsSkyline(s) && 0 <= i < |s| - 1 && s[i].x <= c < Width(s)
    ensures i <= k < |s| - 1 && s[k].x <= c < s[k + 1].x
    decreases |s| - i
  {
    if c < s[i + 1].x then i else IndexFrom(s, c, i + 1)
  }

  ghost function IndexAt(s: seq<Seg>, c: int): (k: int)
    requires IsSkyline(s) && 0 <= c < Width(s)
    ensures 0 <= k < |s| - 1 && s[k].x <= c < s[k + 1].x
    ensures forall i :: 0 <= i <= k ==> s[i].x <= c
    ensures forall i :: k < i < |s| ==> c < s[i].x
  {
    IndexFrom(s, c, 0)
  }

  /** The height of the skyline over column c. */
  ghost function Height(s: seq<Seg>, c: int): (y: int)
    requires IsSkyline(s) && 0 <= c < Width(s)
    ensures 0 <= y
  {
    s[IndexAt(s, c)].y
  }

  lemma HeightIn(s: seq<Seg>, i: int, c: int)
    requires IsSkyline(s) && 0 <= i < |s| - 1 && s[i].x <= c < s[i + 1].x
    ensures 0 <= c < Width(s) && IndexAt(s, c) == i && Height(s, c) == s[i].y
  {
    assert s[0].x <= s[i].x;
    assert s[i + 1].x <= Width(s);
  }

  /** The height over every column, left to right. */
  ghost function Profile(s: seq<Seg>): (h: seq<int>)
    requires IsSkyline(s)
    ensures |h| == Width(s)
    ensures forall c :: 0 <= c < |h| ==> h[c] == Height(s, c) && 0 <= h[c]
  {
    assert s[0].x < Width(s);
    seq(Width(s), c requires 0 <= c < Width(s) => Height(s, c))
  }

  /** Segment i draws a flat stretch of columns. */
  ghost predicate Draws(s: seq<Seg>, h: seq<int>, i: int)
    requires 0 <= i < |s| - 1
  {
    0 <= s[i].x < s[i + 1].x <= |h| && Flat(h, s[i].x, s[i + 1].x, s[i].y)
  }

  lemma ProfileDrawn(s: seq<Seg>, i: int)
    requires IsSkyline(s) && 0 <= i < |s| - 1
    ensures Draws(s, Profile(s), i)
  {
    assert s[0].x <= s[i].x < s[i + 1].x <= Width(s);
    forall c | s[i].x <= c < s[i + 1].x ensures Profile(s)[c] == s[i].y {
      HeightIn(s, i, c);
    }
  }

  // ----- what the search loop computes as waste ------------------------------

  /** The waste the search loop has added up when it stops, from the state in
      which it stands at segment i with the given minimum, visited width and
      waste so far. */
  ghost function ScanWaste(s: seq<Seg>, i: int, x0: int, w: int, minY: int, visited: int, waste: int): int
    requires 0 <= i < |s| && x0 + w <= Width(s)
    decreases |s| - i
  {
    if x0 + w <= s[i].x then waste
    else if minY < s[i].y then
      ScanWaste(s, i + 1, x0, w, s[i].y,
                visited + s[i + 1].x - (if s[i].x < x0 then x0 else s[i].x),
                waste + visited * (s[i].y - minY))
    else
      var under := s[i + 1].x - s[i].x;
      var clipped := if w < under + visited then w - visited else under;
      ScanWaste(s, i + 1, x0, w, minY, visited + clipped, waste + clipped * (minY - s[i].y))
  }

  /** The waste computed for a window of width w at x0 that starts in segment i. */
  ghost function ComputedWaste(s: seq<Seg>, i: int, x0: int, w: int): int
    requires 0 <= i < |s| && x0 + w <= Width(s)
  {
    ScanWaste(s, i, x0, w, 0, 0, 0)
  }

  /** From any later segment on, the loop adds up the waste exactly. */
  lemma {:induction false} ScanWasteExact(s: seq<Seg>, h: seq<int>, i: int, x0: int, w: int, waste: int)
    requires 0 <= i < |s| - 1 && forall k :: 0 <= k < |s| - 1 ==> Draws(s, h, k)
    requires 0 <= x0 <= s[i].x < x0 + w <= Width(s) == |h|
    requires waste == Waste(h, x0, s[i].x, Highest(h, x0, s[i].x))
    ensures ScanWaste(s, i, x0, w, Highest(h, x0, s[i].x), s[i].x - x0, waste)
            == Waste(h, x0, x0 + w, Highest(h, x0, x0 + w))
    decreases |s| - i
  {
    var y, minY, visited, next := s[i].y, Highest(h, x0, s[i].x), s[i].x - x0, s[i + 1].x;
    assert Draws(s, h, i);
    if next < x0 + w {
      WindowStep(h, x0, s[i].x, next, y);
      var added := if minY < y then visited * (y - minY) else (next - s[i].x) * (minY - y);
      ScanWasteExact(s, h, i + 1, x0, w, waste + added);
    } else {
      WindowStep(h, x0, s[i].x, x0 + w, y);
      ScanWasteEnd(s, i, x0, w, minY, visited, waste);
    }
  }

  /** The last segment of the window, of which only a part need lie in it. */
  lemma ScanWasteEnd(s: seq<Seg>, i: int, x0: int, w: int, minY: int, visited: int, waste: int)
    requires 0 <= i < |s| - 1 && visited == s[i].x - x0
    requires x0 <= s[i].x < x0 + w <= s[i + 1].x && x0 + w <= Width(s)
    ensures ScanWaste(s, i, x0, w, minY, visited, waste) ==
            waste + if minY < s[i].y then visited * (s[i].y - minY) else (w - visited) * (minY - s[i].y)
  {
  }

  /** The area left free under the level of a window of width w at x0. */
  ghost function FreeArea(s: seq<Seg>, x0: int, w: int): int
    requires IsSkyline(s) && 0 <= x0 && 0 <= w && x0 + w <= Width(s)
  {
    Waste(Profile(s), x0, x0 + w, Highest(Profile(s), x0, x0 + w))
  }

  /** Only the last segment can be on the floor. */
  ghost predicate FloorLast(s: seq<Seg>) {
    forall i :: 0 <= i < |s| - 2 ==> 0 < s[i].y
  }

  /** With the floor on the right, the waste that the loop computes is the free area,
      wherever the window starts. */
  lemma ComputedWasteIsFreeArea(s: seq<Seg>, i: int, x0: int, w: int)
    requires IsSkyline(s) && FloorLast(s) && 0 <= i < |s| - 1 && s[i].x <= x0 < s[i + 1].x
    requires 0 < w && x0 + w <= Width(s)
    ensures 0 <= x0 && ComputedWaste(s, i, x0, w) == FreeArea(s, x0, w)
  {
    forall k | 0 <= k < |s| - 1 ensures Draws(s, Profile(s), k) {
      ProfileDrawn(s, k);
    }
    assert Draws(s, Profile(s), i);
    if s[i].x == x0 {
      ScanWasteExact(s, Profile(s), i, x0, w, 0);
    } else if 0 < s[i].y {
      ScanWasteInside(s, Profile(s), i, x0, w);
    } else {
      ScanWasteFloor(s, Profile(s), i, x0, w);
    }
  }

  /** A window that lies on the floor as a whole. */
  lemma ScanWasteFloor(s: seq<Seg>, h: seq<int>, i: int, x0: int, w: int)
    requires 0 <= i < |s| - 1 && Draws(s, h, i) && s[i].y == 0
    requires 0 <= s[i].x <= x0 < x0 + w <= s[i + 1].x && x0 + w <= Width(s) == |h|
    ensures ComputedWaste(s, i, x0, w) == 0 == Waste(h, x0, x0 + w, 0) && Highest(h, x0, x0 + w) == 0
  {
    FloorWindow(h, x0, x0 + w);
    assert ComputedWaste(s, i, x0, w) ==
           ScanWaste(s, i + 1, x0, w, 0, if w < s[i + 1].x - s[i].x then w else s[i + 1].x - s[i].x, 0);
  }

  lemma ScanWasteInside(s: seq<Seg>, h: seq<int>, i: int, x0: int, w: int)
    requires 0 <= i < |s| - 1 && forall k :: 0 <= k < |s| - 1 ==> Draws(s, h, k)
    requires 0 <= s[i].x < x0 < s[i + 1].x && x0 < x0 + w <= Width(s) == |h| && 0 < s[i].y
    ensures ComputedWaste(s, i, x0, w) == Waste(h, x0, x0 + w, Highest(h, x0, x0 + w))
  {
    var y, next := s[i].y, s[i + 1].x;
    assert Draws(s, h, i);
    assert ComputedWaste(s, i, x0, w) == ScanWaste(s, i + 1, x0, w, y, next - x0, 0);
    if next < x0 + w {
      WindowStep(h, x0, x0, next, y);
      ScanWasteExact(s, h, i + 1, x0, w, 0);
    } else {
      WindowStep(h, x0, x0, x0 + w, y);
    }
  }

  // ----- putting a rectangle on the skyline ----------------------------------

  /** The first segment from j on whose successor starts right of r. */
  ghost function StopAt(s: seq<Seg>, j: int, r: int): (k: int)
    requires 0 <= j < |s|
    ensures j <= k < |s|
    ensures k + 1 < |s| ==> r < s[k + 1].x
    ensures forall m :: j < m <= k ==> s[m].x <= r
    decreases |s| - j
  {
    if j + 1 < |s| && s[j + 1].x <= r then StopAt(s, j + 1, r) else j
  }

  /** Index of the first segment that a rectangle at x, found from segment `at`, may swallow. */
  ghost function FirstSwallowed(s: seq<Seg>, at: int, x: int): int
    requires 0 <= at < |s|
  {
    if s[at].x < x then at + 1 else at
  }

  /** The skyline after a rectangle of width w with its top at `top` is placed
      at x, where segment `at` covers x. */
  ghost function Splice(s: seq<Seg>, at: int, x: int, w: int, top: int): seq<Seg>
    requires 0 <= at < |s| - 1
  {
    var first := FirstSwallowed(s, at, x);
    var stop := StopAt(s, first, x + w);
    s[..first] + [Seg(x, top)] + Moved(s[stop], x + w) + s[stop + 1..]
  }

  /** The segment that follows the new one, cut off at the new one's right end. */
  ghost function Moved(seg: Seg, r: int): seq<Seg> {
    [if seg.x < r then seg.(x := r) else seg]
  }

  /** Where a splice is legal: segment `at` covers x, the rectangle ends within the target. */
  ghost predicate Spliceable(s: seq<Seg>, at: int, x: int, w: int, top: int) {
    IsSkyline(s) && 0 <= at < |s| - 1 && s[at].x <= x < s[at + 1].x && 0 < w && x + w <= Width(s) && 0 <= top
  }

  /** Right end of the columns that the new segment covers. */
  ghost function CoverEnd(s: seq<Seg>, at: int, x: int, w: int): int
    requires 0 <= at < |s| - 1
  {
    var stop := StopAt(s, FirstSwallowed(s, at, x), x + w);
    if s[stop].x < x + w then x + w else s[stop].x
  }

  /** List t is s with its elements first, ..., stop replaced by two: one at x with
      the height `top`, and the last of them cut off at `end`. */
  ghost predicate Parts(s: seq<Seg>, t: seq<Seg>, first: int, stop: int, x: int, top: int, end: int) {
    && 0 <= first <= stop < |s| && |t| == first + 1 + (|s| - stop)
    && (forall k :: 0 <= k < first ==> t[k] == s[k])
    && t[first] == Seg(x, top)
    && t[first + 1] == Seg(end, s[stop].y)
    && (forall k :: first + 2 <= k < |t| ==> t[k] == s[k - first - 1 + stop])
  }

  lemma SpliceParts(s: seq<Seg>, at: int, x: int, w: int, top: int)
    requires 0 <= at < |s| - 1
    ensures var first := FirstSwallowed(s, at, x);
            Parts(s, Splice(s, at, x, w, top), first, StopAt(s, first, x + w), x, top, CoverEnd(s, at, x, w))
  {
  }

  /** The new segment and the next one fit in between the rest. */
  ghost predicate FitsBetween(s: seq<Seg>, first: int, stop: int, x: int, end: int) {
    && 0 <= first <= stop < |s| && 0 <= x < end <= Width(s)
    && (first > 0 ==> s[first - 1].x < x) && (first == 0 ==> x == 0)
    && (stop < |s| - 1 ==> end < s[stop + 1].x) && (stop == |s| - 1 ==> end == Width(s))
    && x <= s[first].x && s[stop].x <= end
  }

  lemma CoverEndBounds(s: seq<Seg>, at: int, x: int, w: int, top: int)
    requires Spliceable(s, at, x, w, top)
    ensures x + w <= CoverEnd(s, at, x, w) <= Width(s)
    ensures x + w < CoverEnd(s, at, x, w) ==> CoverEnd(s, at, x, w) == s[at + 1].x
    ensures var first := FirstSwallowed(s, at, x);
            FitsBetween(s, first, StopAt(s, first, x + w), x, CoverEnd(s, at, x, w))
  {
    var first := FirstSwallowed(s, at, x);
    var stop := StopAt(s, first, x + w);
    assert s[0].x <= s[at].x;
    assert s[stop].x <= Width(s);
  }

  lemma PartsRise(s: seq<Seg>, t: seq<Seg>, first: int, stop: int, x: int, top: int, end: int)
    requires IsSkyline(s) && Parts(s, t, first, stop, x, top, end) && FitsBetween(s, first, stop, x, end) && 0 <= top
    ensures IsSkyline(t) && Width(t) == Width(s)
  {
    forall i, j | 0 <= i < j < |t| ensures t[i].x < t[j].x {
      assert i < first ==> t[i].x <= s[first - 1].x < x;
      assert first + 2 <= j ==> end < s[stop + 1].x <= t[j].x;
    }
  }

  lemma PartsHeight(s: seq<Seg>, t: seq<Seg>, first: int, stop: int, x: int, top: int, end: int, c: int)
    requires IsSkyline(s) && IsSkyline(t) && Width(t) == Width(s) && 0 <= c < Width(s)
    requires Parts(s, t, first, stop, x, top, end) && FitsBetween(s, first, stop, x, end)
    ensures Height(t, c) == if x <= c < end then top else Height(s, c)
  {
    hide IsSkyline;
    var k := IndexAt(s, c);
    if c < x {
      assert k < first;
      HeightIn(t, k, c);
    } else if c < end {
      HeightIn(t, first, c);
    } else {
      assert stop <= k;
      HeightIn(t, first + 1 + (k - stop), c);
    }
  }

  /** Skyline t is s with the columns from, ..., to - 1 set to `top`. */
  ghost predicate Raised(s: seq<Seg>, t: seq<Seg>, from: int, to: int, top: int) {
    && IsSkyline(s) && IsSkyline(t) && Width(t) == Width(s)
    && forall c :: 0 <= c < Width(s) ==> Height(t, c) == if from <= c < to then top else Height(s, c)
  }

  /** Heights after a splice: `top` over the covered columns, unchanged elsewhere. */
  lemma SpliceRaises(s: seq<Seg>, at: int, x: int, w: int, top: int)
    requires Spliceable(s, at, x, w, top)
    ensures Raised(s, Splice(s, at, x, w, top), x, CoverEnd(s, at, x, w), top)
  {
    hide Splice, StopAt, CoverEnd, Parts, FitsBetween;
    var first := FirstSwallowed(s, at, x);
    var stop, t, end := StopAt(s, first, x + w), Splice(s, at, x, w, top), CoverEnd(s, at, x, w);
    SpliceParts(s, at, x, w, top);
    CoverEndBounds(s, at, x, w, top);
    PartsRise(s, t, first, stop, x, top, end);
    forall c | 0 <= c < Width(s) {
      PartsHeight(s, t, first, stop, x, top, end, c);
    }
  }

  /** The floor stays on the right, as long as nothing is put on it away from its left end. */
  lemma SpliceFloorLast(s: seq<Seg>, at: int, x: int, w: int, top: int)
    requires FloorLast(s) && 0 <= at < |s| - 1 && 0 < top
    requires s[at].x < x ==> 0 < s[at].y
    ensures FloorLast(Splice(s, at, x, w, top))
  {
    var first := FirstSwallowed(s, at, x);
    SpliceParts(s, at, x, w, top);
    var t, stop := Splice(s, at, x, w, top), StopAt(s, first, x + w);
    forall i | 0 <= i < |t| - 2 ensures 0 < t[i].y {
      if i == first + 1 {
        assert stop < |s| - 2;
      } else if i > first + 1 {
        assert t[i] == s[i - first - 1 + stop];
      }
    }
  }
}
