/** The packer as it runs: nodes in one array, an active list (the skyline) and a
    free list threaded through them, searched and spliced in place. */
module RectPacker {
  import opened Wrappers
  import opened Columns
  import opened Skyline
  import opened Packing

  const NULL := -1
  const MAX_COORD := 0xffff
  const FAR := 0x4000_0000

  datatype Node = Node(x: int, y: int, next: int)

  /** A reference to a link: the head of the active list, or the next field of a node. */
  datatype Link = NoLink | HeadLink | NextOf(node: int)

  datatype FindResult = FindResult(x: int, y: int, link: Link)

  /** Conversion to the 16-bit coordinate type. */
  function ToCoord(v: int): int {
    v % 0x10000
  }

  // ----- list segments as values ---------------------------------------------

  ghost predicate InRange(n: int, l: seq<int>) {
    forall i :: 0 <= i < |l| ==> 0 <= l[i] < n
  }

  /** Following next from head passes through l and ends at `end`. */
  ghost predicate Chain(ns: seq<Node>, head: int, l: seq<int>, end: int) {
    && InRange(|ns|, l)
    && head == (if l == [] then end else l[0])
    && forall i {:trigger ns[l[i]]} :: 0 <= i < |l| ==> ns[l[i]].next == if i + 1 < |l| then l[i + 1] else end
  }

  ghost predicate Distinct(l: seq<int>) {
    forall i, j :: 0 <= i < j < |l| ==> l[i] != l[j]
  }

  ghost predicate Apart(l: seq<int>, m: seq<int>) {
    forall i, j :: 0 <= i < |l| && 0 <= j < |m| ==> l[i] != m[j]
  }

  ghost function SkyOf(ns: seq<Node>, l: seq<int>): (s: seq<Seg>)
    requires InRange(|ns|, l)
    ensures |s| == |l|
    ensures forall i :: 0 <= i < |l| ==> s[i] == Seg(ns[l[i]].x, ns[l[i]].y)
  {
    seq(|l|, i requires 0 <= i < |l| => Seg(ns[l[i]].x, ns[l[i]].y))
  }

  /** The two arrays agree on the nodes in l. */
  ghost predicate AgreeOn(ns: seq<Node>, ns': seq<Node>, l: seq<int>) {
    |ns| == |ns'| && InRange(|ns|, l) && forall i :: 0 <= i < |l| ==> ns'[l[i]] == ns[l[i]]
  }

  lemma ChainFrame(ns: seq<Node>, ns': seq<Node>, head: int, l: seq<int>, end: int)
    requires Chain(ns, head, l, end) && AgreeOn(ns, ns', l)
    ensures Chain(ns', head, l, end)
  {
  }

  lemma ChainAppend(ns: seq<Node>, head: int, l: seq<int>, mid: int, m: seq<int>, end: int)
    requires Chain(ns, head, l, mid) && Chain(ns, mid, m, end)
    ensures Chain(ns, head, l + m, end)
  {
  }

  lemma ChainSplit(ns: seq<Node>, head: int, l: seq<int>, end: int, k: int)
    requires Chain(ns, head, l, end) && 0 <= k < |l|
    ensures Chain(ns, head, l[..k], l[k]) && Chain(ns, l[k], l[k..], end)
  {
  }

  lemma InitLinked(ns: seq<Node>, n: int)
    requires 0 < n && |ns| == n + 2
    requires forall i :: 0 <= i < n ==> ns[i].next == if i < n - 1 then i + 1 else NULL
    requires ns[n].next == n + 1 && ns[n + 1].next == NULL
    ensures Chain(ns, n, [n, n + 1], NULL)
    ensures var free := seq(n, i => i);
            Chain(ns, 0, free, NULL) && Distinct(free) && Apart([n, n + 1], free)
  {
  }

  /** The part of the window x0, ..., x1 - 1 left of x ends here. */
  function Within(x: int, x0: int, x1: int): int {
    if x < x0 then x0 else if x1 < x then x1 else x
  }

  lemma ScanStart(s: seq<Seg>, at: int, x0: int, w: int)
    requires IsSkyline(s) && 0 <= at < |s| - 1 && s[at].x <= x0 < s[at + 1].x && 0 < w && x0 + w <= Width(s)
    ensures 0 <= x0 && x0 + w <= |Profile(s)| == Width(s)
    ensures Highest(Profile(s), x0, Within(s[at].x, x0, x0 + w)) == 0
    ensures s[at].x < Width(s)
  {
    assert s[0].x <= s[at].x;
  }

  /** The window grows by the columns of segment i. */
  lemma ScanNext(s: seq<Seg>, i: int, x0: int, w: int)
    requires IsSkyline(s) && 0 <= i < |s| - 1 && 0 <= x0 && 0 < w && x0 + w <= |Profile(s)| == Width(s)
    requires s[i].x < x0 + w && (x0 < s[i].x || x0 < s[i + 1].x)
    ensures s[i].x < s[i + 1].x && x0 < s[i + 1].x
    ensures i + 1 == |s| - 1 ==> x0 + w <= s[i + 1].x
    ensures var m := Highest(Profile(s), x0, Within(s[i].x, x0, x0 + w));
            Highest(Profile(s), x0, Within(s[i + 1].x, x0, x0 + w)) == if m < s[i].y then s[i].y else m
  {
    ProfileDrawn(s, i);
    HighestStep(Profile(s), x0, Within(s[i].x, x0, x0 + w), Within(s[i + 1].x, x0, x0 + w), s[i].y);
  }

  /** One iteration of the search loop. */
  lemma ScanOnce(s: seq<Seg>, i: int, x0: int, w: int, minY: int, visited: int, waste: int)
    requires 0 <= i < |s| - 1 && s[i].x < x0 + w <= Width(s)
    ensures minY < s[i].y ==>
              ScanWaste(s, i, x0, w, minY, visited, waste) ==
              ScanWaste(s, i + 1, x0, w, s[i].y, visited + (s[i + 1].x - if s[i].x < x0 then x0 else s[i].x),
                        waste + visited * (s[i].y - minY))
    ensures s[i].y <= minY ==>
              var under := s[i + 1].x - s[i].x;
              var clipped := if w < under + visited then w - visited else under;
              ScanWaste(s, i, x0, w, minY, visited, waste) ==
              ScanWaste(s, i + 1, x0, w, minY, visited + clipped, waste + clipped * (minY - s[i].y))
  {
  }

  lemma ScanDone(s: seq<Seg>, at: int, i: int, x0: int, w: int, minY: int, visited: int, waste: int)
    requires 0 <= at < |s| && 0 <= i < |s| && x0 + w <= Width(s) && x0 + w <= s[i].x
    requires ScanWaste(s, i, x0, w, minY, visited, waste) == ScanWaste(s, at, x0, w, 0, 0, 0)
    ensures waste == ComputedWaste(s, at, x0, w)
  {
  }

  // ----- the search for a place ----------------------------------------------

  /** A window of width w is no wider than the target, and all heights are small. */
  ghost predicate Searchable(k: Packer, w: int) {
    && IsSkyline(k.sky) && Width(k.sky) == k.width && 0 < w <= k.width
    && k.height < FAR && LowSkyline(k.sky, k.height) && FloorLast(k.sky)
  }

  lemma LeftStart(k: Packer, w: int, h: int)
    requires Searchable(k, w)
    ensures 2 <= |k.sky| && Pick(k.bestFit, Collect(Lefts(k, w, h), 0)) == None
  {
  }

  lemma LeftInside(k: Packer, w: int, i: int)
    requires Searchable(k, w) && 0 <= i < |k.sky| && k.sky[i].x + w <= k.width
    ensures i < |k.sky| - 1 && FitsLeft(k.sky, w, i) && 0 <= k.sky[i].x < k.sky[i + 1].x
    ensures IsSkyline(k.sky) && FloorLast(k.sky) && 0 < w && k.sky[i].x + w <= Width(k.sky)
  {
  }

  lemma LevelBound(k: Packer, x: int, w: int)
    requires Searchable(k, w) && 0 <= x && x + w <= k.width
    ensures 0 <= Highest(Profile(k.sky), x, x + w) <= k.height
  {
    hide IsSkyline;
    HighestIsMaximum(Profile(k.sky), x, x + w);
  }

  /** What looking at the left-aligned position of segment i does to the best place. */
  lemma LeftStep(k: Packer, w: int, h: int, i: int, y: int, waste: int, best: Option<Place>)
    requires Searchable(k, w) && FitsLeft(k.sky, w, i) && 0 <= k.sky[i].x
    requires y == Highest(Profile(k.sky), k.sky[i].x, k.sky[i].x + w)
    requires waste == FreeArea(k.sky, k.sky[i].x, w)
    requires best == Pick(k.bestFit, Collect(Lefts(k, w, h), i))
    requires best.Some? ==> best.value.x < k.sky[i].x
    ensures y < FAR
    ensures var taken := (k.bestFit ==> y + h <= k.height) &&
                         (best.None? || y < best.value.y ||
                          (y == best.value.y && k.bestFit && waste < best.value.waste));
            Pick(k.bestFit, Collect(Lefts(k, w, h), i + 1)) ==
            if taken then Some(Place(k.sky[i].x, y, waste, i)) else best
  {
    hide Collect, Pick, Highest, FreeArea, FloorLast, LowSkyline;
    var f, p := Lefts(k, w, h), Place(k.sky[i].x, y, waste, i);
    LevelBound(k, k.sky[i].x, w);
    assert f(i) == if Admits(k, h, p) then Some(p) else None;
    CollectStep(f, i);
    PickStep(k.bestFit, Collect(f, i), p);
  }

  lemma CollectStep(f: int -> Option<Place>, i: nat)
    ensures f(i).Some? ==> Collect(f, i + 1) == Collect(f, i) + [f(i).value]
    ensures f(i).None? ==> Collect(f, i + 1) == Collect(f, i)
  {
  }

  lemma LeftEnd(k: Packer, w: int, h: int, i: nat)
    requires Searchable(k, w) && i < |k.sky| && k.width < k.sky[i].x + w
    ensures Collect(Lefts(k, w, h), |k.sky|) == Collect(Lefts(k, w, h), i)
  {
    forall j | i <= j < |k.sky| ensures Lefts(k, w, h)(j).None? {
      assert k.sky[i].x <= k.sky[j].x;
    }
    CollectNone(Lefts(k, w, h), i, |k.sky|);
  }

  lemma RightStart(k: Packer, w: int)
    requires Searchable(k, w)
    ensures 2 <= |k.sky| && k.sky[0].x == 0
  {
  }

  lemma RightSkip(k: Packer, w: int, t: int)
    requires Searchable(k, w) && 0 <= t < |k.sky| && k.sky[t].x < w
    ensures t + 1 < |k.sky|
  {
  }

  lemma RightSkipped(k: Packer, w: int, h: int, t: int)
    requires Searchable(k, w) && 0 <= t < |k.sky| && (t > 0 ==> k.sky[t - 1].x < w)
    ensures Collect(Lefts(k, w, h), |k.sky|) + Collect(Rights(k, w, h), t) == Collect(Lefts(k, w, h), |k.sky|)
  {
    forall j | 0 <= j < t ensures Rights(k, w, h)(j).None? {
      assert k.sky[j].x <= k.sky[t - 1].x;
    }
    CollectNone(Rights(k, w, h), 0, t);
  }

  lemma RightNext(k: Packer, w: int, t: int)
    requires Searchable(k, w) && 0 <= t < |k.sky|
    ensures t + 1 < |k.sky| ==> k.sky[t].x < k.sky[t + 1].x
    ensures k.sky[t].x <= Width(k.sky)
    ensures IsSkyline(k.sky) && FloorLast(k.sky) && 0 < w && k.width == Width(k.sky) == |Profile(k.sky)|
  {
  }

  /** What looking at the right-aligned position of element t does to the best place. */
  lemma RightStep(k: Packer, w: int, h: int, t: int, m: int, y: int, waste: int, best: Option<Place>)
    requires Searchable(k, w) && k.bestFit && FitsRight(k.sky, w, t) && 0 <= m < |k.sky| - 1
    requires k.sky[m].x <= k.sky[t].x - w < k.sky[m + 1].x && k.sky[t].x <= |Profile(k.sky)|
    requires y == Highest(Profile(k.sky), k.sky[t].x - w, k.sky[t].x)
    requires waste == FreeArea(k.sky, k.sky[t].x - w, w)
    requires best == Pick(k.bestFit, Collect(Lefts(k, w, h), |k.sky|) + Collect(Rights(k, w, h), t))
    ensures y < FAR
    ensures var p := Place(k.sky[t].x - w, y, waste, m);
            var taken := y + h <= k.height && (best.None? || Better(true, p, best.value));
            Pick(k.bestFit, Collect(Lefts(k, w, h), |k.sky|) + Collect(Rights(k, w, h), t + 1)) ==
            if taken then Some(p) else best
  {
    hide Collect, Pick, Highest, FreeArea, FloorLast, LowSkyline, Better;
    var f, p := Rights(k, w, h), Place(k.sky[t].x - w, y, waste, m);
    var ls := Collect(Lefts(k, w, h), |k.sky|);
    LevelBound(k, k.sky[t].x - w, w);
    HeightIn(k.sky, m, k.sky[t].x - w);
    assert f(t) == if Admits(k, h, p) then Some(p) else None;
    CollectStep(f, t);
    PickStep(k.bestFit, ls + Collect(f, t), p);
    assert ls + (Collect(f, t) + [p]) == (ls + Collect(f, t)) + [p];
  }

  /** Bottom-left has no right-aligned candidates. */
  lemma NoRights(k: Packer, w: int, h: int)
    requires !k.bestFit
    ensures Candidates(k, w, h) == Collect(Lefts(k, w, h), |k.sky|)
  {
    CollectNone(Rights(k, w, h), 0, |k.sky|);
  }

  // ----- the splice, on values -----------------------------------------------

  /** The lists while a rectangle is being put in: the active list is cut after its
      first `first` elements, where it leads to the new node; its elements from
      j on hang on `cur`; those in between are already on the free list. */
  ghost predicate InTransit(ns: seq<Node>, activeHead: int, freeHead: int, a: seq<int>, s: seq<Seg>,
                            node: int, cur: int, first: int, j: int, free: seq<int>)
  {
    && 0 <= first <= j < |a| && InRange(|ns|, a) && InRange(|ns|, free) && SkyOf(ns, a) == s
    && Chain(ns, activeHead, a[..first], node)
    && Chain(ns, cur, a[j..], NULL)
    && Chain(ns, freeHead, free, NULL)
    && Separated(a, node, first, j, free)
  }

  /** No node is in two places. */
  ghost predicate Separated(a: seq<int>, node: int, first: int, j: int, free: seq<int>)
    requires 0 <= first <= j < |a|
  {
    && Distinct(a) && Distinct(free) && Apart(a[..first], free) && Apart(a[j..], free)
    && node !in a && node !in free
  }

  ghost predicate TwoLists(ns: seq<Node>, activeHead: int, freeHead: int, a: seq<int>, free: seq<int>) {
    && Chain(ns, activeHead, a, NULL) && Chain(ns, freeHead, free, NULL)
    && Distinct(a) && Distinct(free) && Apart(a, free)
  }

  /** Only the nodes in `touched` differ. */
  ghost predicate OnlyChanged(ns: seq<Node>, ns': seq<Node>, touched: set<int>) {
    |ns'| == |ns| && forall v :: 0 <= v < |ns| && v !in touched ==> ns'[v] == ns[v]
  }

  lemma FreeNode(ns: seq<Node>, activeHead: int, freeHead: int, a: seq<int>, free: seq<int>, at: int)
    requires TwoLists(ns, activeHead, freeHead, a, free) && freeHead != NULL && 0 <= at < |a| - 1
    ensures free != [] && freeHead == free[0] && 0 <= freeHead < |ns|
    ensures freeHead != a[at] && (at > 0 ==> freeHead != a[at - 1] && a[at - 1] != a[at])
  {
  }

  /** The active list cut before its element `first`, with the first free node behind the cut. */
  lemma CutOff(ns: seq<Node>, ns': seq<Node>, activeHead: int, activeHead': int, freeHead: int,
               a: seq<int>, free: seq<int>, first: int)
    requires TwoLists(ns, activeHead, freeHead, a, free) && free != [] && 0 <= first < |a|
    requires OnlyChanged(ns, ns', if first == 0 then {free[0]} else {free[0], a[first - 1]})
    requires ns'[free[0]].next == ns[free[0]].next
    requires if first == 0 then activeHead' == free[0]
             else activeHead' == activeHead && ns'[a[first - 1]] == ns[a[first - 1]].(next := free[0])
    ensures InTransit(ns', activeHead', ns[free[0]].next, a, SkyOf(ns, a), free[0], a[first], first, first, free[1..])
  {
    hide Chain, Distinct, Apart, Separated;
    CutAgrees(ns, ns', activeHead, freeHead, a, free, first);
    ChainSplit(ns, activeHead, a, NULL, first);
    CutHead(ns, ns', activeHead, activeHead', a, first, free[0]);
    ChainFrame(ns, ns', a[first], a[first..], NULL);
    FreeTail(ns, ns', freeHead, free);
    CutSeparated(a, free, first);
  }

  lemma CutAgrees(ns: seq<Node>, ns': seq<Node>, activeHead: int, freeHead: int, a: seq<int>, free: seq<int>,
                  first: int)
    requires TwoLists(ns, activeHead, freeHead, a, free) && free != [] && 0 <= first < |a|
    requires OnlyChanged(ns, ns', if first == 0 then {free[0]} else {free[0], a[first - 1]})
    requires first > 0 ==> ns'[a[first - 1]].(next := 0) == ns[a[first - 1]].(next := 0)
    ensures InRange(|ns|, a) && InRange(|ns|, free)
    ensures AgreeOn(ns, ns', a[first..]) && AgreeOn(ns, ns', free[1..])
    ensures forall i :: 0 <= i < first - 1 ==> ns'[a[i]] == ns[a[i]]
    ensures SkyOf(ns', a) == SkyOf(ns, a)
  {
    CutLeaves(ns, ns', a, free, first);
    SameSky(ns, ns', a);
  }

  /** Apart from the node before the cut and the first free one, nothing has changed. */
  lemma CutLeaves(ns: seq<Node>, ns': seq<Node>, a: seq<int>, free: seq<int>, first: int)
    requires InRange(|ns|, a) && InRange(|ns|, free) && Distinct(a) && Distinct(free) && Apart(a, free)
    requires free != [] && 0 <= first < |a|
    requires OnlyChanged(ns, ns', if first == 0 then {free[0]} else {free[0], a[first - 1]})
    ensures forall i :: 0 <= i < |a| && i != first - 1 ==> ns'[a[i]] == ns[a[i]]
    ensures forall i :: 1 <= i < |free| ==> ns'[free[i]] == ns[free[i]]
  {
  }

  lemma SameSky(ns: seq<Node>, ns': seq<Node>, a: seq<int>)
    requires InRange(|ns|, a) && |ns'| == |ns|
    requires forall i :: 0 <= i < |a| ==> ns'[a[i]].(next := 0) == ns[a[i]].(next := 0)
    ensures SkyOf(ns', a) == SkyOf(ns, a)
  {
  }

  lemma CutSeparated(a: seq<int>, free: seq<int>, first: int)
    requires Distinct(a) && Distinct(free) && Apart(a, free) && free != [] && 0 <= first < |a|
    ensures Separated(a, free[0], first, first, free[1..])
  {
  }

  lemma CutHead(ns: seq<Node>, ns': seq<Node>, activeHead: int, activeHead': int, a: seq<int>, first: int, node: int)
    requires 0 <= first < |a| && Distinct(a) && Chain(ns, activeHead, a[..first], a[first]) && |ns'| == |ns|
    requires forall i :: 0 <= i < first - 1 ==> ns'[a[i]] == ns[a[i]]
    requires if first == 0 then activeHead' == node
             else activeHead' == activeHead && ns'[a[first - 1]] == ns[a[first - 1]].(next := node)
    ensures Chain(ns', activeHead', a[..first], node)
  {
  }

  lemma FreeTail(ns: seq<Node>, ns': seq<Node>, freeHead: int, free: seq<int>)
    requires free != [] && Chain(ns, freeHead, free, NULL) && Distinct(free) && AgreeOn(ns, ns', free[1..])
    ensures Chain(ns', ns[free[0]].next, free[1..], NULL)
  {
    if |free| > 1 {
      ChainSplit(ns, freeHead, free, NULL, 1);
      ChainFrame(ns, ns', free[1], free[1..], NULL);
    } else {
      assert ns[free[0]].next == NULL;
    }
  }

  /** Putting cur on the free list. */
  lemma FreeOne(ns: seq<Node>, activeHead: int, freeHead: int, a: seq<int>, s: seq<Seg>,
                node: int, cur: int, first: int, j: int, free: seq<int>)
    requires InTransit(ns, activeHead, freeHead, a, s, node, cur, first, j, free) && j + 1 < |a|
    ensures 0 <= cur < |ns| && ns[cur].next == a[j + 1]
    ensures InTransit(ns[cur := ns[cur].(next := freeHead)], activeHead, cur, a, s,
                      node, a[j + 1], first, j + 1, [cur] + free)
  {
    hide Chain, Distinct, Apart, Separated;
    CurIs(ns, cur, a, j);
    var ns' := ns[cur := ns[cur].(next := freeHead)];
    FreeOneAgrees(ns, ns', a, node, cur, first, j, free);
    ChainFrame(ns, ns', activeHead, a[..first], node);
    ChainFrame(ns, ns', a[j + 1], a[j + 1..], NULL);
    ChainFrame(ns, ns', freeHead, free, NULL);
    ChainLink(ns', cur, freeHead, free);
  }

  lemma CurIs(ns: seq<Node>, cur: int, a: seq<int>, j: int)
    requires 0 <= j < |a| && Chain(ns, cur, a[j..], NULL)
    ensures cur == a[j] && 0 <= cur < |ns|
    ensures ns[cur].next == if j + 1 < |a| then a[j + 1] else NULL
    ensures j + 1 < |a| ==> Chain(ns, a[j + 1], a[j + 1..], NULL)
  {
    assert a[j..][0] == a[j];
    assert ns[a[j..][0]].next == if j + 1 < |a| then a[j + 1] else NULL;
    if j + 1 < |a| {
      ChainSplit(ns, cur, a[j..], NULL, 1);
      assert a[j..][1..] == a[j + 1..];
    }
  }

  lemma FreeOneAgrees(ns: seq<Node>, ns': seq<Node>, a: seq<int>, node: int, cur: int, first: int, j: int,
                      free: seq<int>)
    requires 0 <= first <= j < |a| - 1 && Separated(a, node, first, j, free) && cur == a[j]
    requires InRange(|ns|, a) && InRange(|ns|, free) && |ns'| == |ns| && 0 <= cur < |ns|
    requires ns' == ns[cur := ns'[cur]] && ns'[cur].x == ns[cur].x && ns'[cur].y == ns[cur].y
    ensures AgreeOn(ns, ns', a[..first]) && AgreeOn(ns, ns', a[j + 1..]) && AgreeOn(ns, ns', free)
    ensures SkyOf(ns', a) == SkyOf(ns, a) && InRange(|ns|, [cur] + free)
    ensures Separated(a, node, first, j + 1, [cur] + free)
  {
    assert a[j..][0] == a[j];
  }

  /** Reading the list behind the cut. */
  lemma TransitAt(ns: seq<Node>, activeHead: int, freeHead: int, a: seq<int>, s: seq<Seg>,
                  node: int, cur: int, first: int, j: int, free: seq<int>)
    requires InTransit(ns, activeHead, freeHead, a, s, node, cur, first, j, free)
    ensures |a| == |s| && 0 <= first <= j < |a| && cur == a[j] && 0 <= cur < |ns| && cur != node
    ensures s[j] == Seg(ns[cur].x, ns[cur].y)
    ensures ns[cur].next == if j + 1 < |a| then a[j + 1] else NULL
    ensures j + 1 < |a| ==> 0 <= a[j + 1] < |ns| && ns[a[j + 1]].x == s[j + 1].x
  {
    CurIs(ns, cur, a, j);
  }

  lemma StopNext(s: seq<Seg>, j: int, r: int)
    requires 0 <= j < |s| - 1 && s[j + 1].x <= r
    ensures StopAt(s, j, r) == StopAt(s, j + 1, r)
  {
  }

  lemma StopHere(s: seq<Seg>, j: int, r: int)
    requires 0 <= j < |s| && (j + 1 < |s| ==> r < s[j + 1].x)
    ensures StopAt(s, j, r) == j
  {
  }

  /** The new node and, perhaps, the first element of the rest have changed, and the lists are whole again. */
  lemma Stitched(ns: seq<Node>, ns': seq<Node>, activeHead: int, freeHead: int, a: seq<int>, s: seq<Seg>,
                 node: int, cur: int, first: int, stop: int, free: seq<int>)
    requires InTransit(ns, activeHead, freeHead, a, s, node, cur, first, stop, free)
    requires 0 <= node < |ns| && cur != node && 0 <= cur < |ns|
    requires |ns'| == |ns| && OnlyChanged(ns, ns', {node, cur})
    requires ns'[node] == ns[node].(next := cur) && ns'[cur].next == ns[cur].next
    ensures |s| == |a| && 0 <= first <= stop < |a|
    ensures var l := a[..first] + [node] + a[stop..];
            && TwoLists(ns', activeHead, freeHead, l, free)
            && SkyOf(ns', l) ==
               s[..first] + [Seg(ns[node].x, ns[node].y)] + [Seg(ns'[cur].x, ns'[cur].y)] + s[stop + 1..]
  {
    hide Chain, SkyOf, Distinct, Apart, AgreeOn, Separated, OnlyChanged, InTransit;
    TransitParts(ns, activeHead, freeHead, a, s, node, cur, first, stop, free);
    CurIs(ns, cur, a, stop);
    StitchedAgrees(ns, ns', a, node, cur, first, stop, free);
    StitchedApart(a, |ns|, node, first, stop, free);
    StitchedSky(ns, ns', a, s, node, first, stop);
    ChainFrame(ns, ns', activeHead, a[..first], node);
    ChainFrame(ns, ns', freeHead, free, NULL);
    ChainNexts(ns, ns', cur, a[stop..]);
    ChainLink(ns', node, cur, a[stop..]);
    assert a[..first] + [node] + a[stop..] == a[..first] + ([node] + a[stop..]);
    ChainAppend(ns', activeHead, a[..first], node, [node] + a[stop..], NULL);
  }

  lemma TransitParts(ns: seq<Node>, activeHead: int, freeHead: int, a: seq<int>, s: seq<Seg>,
                     node: int, cur: int, first: int, j: int, free: seq<int>)
    requires InTransit(ns, activeHead, freeHead, a, s, node, cur, first, j, free)
    ensures 0 <= first <= j < |a| && InRange(|ns|, a) && InRange(|ns|, free) && SkyOf(ns, a) == s
    ensures Chain(ns, activeHead, a[..first], node) && Chain(ns, cur, a[j..], NULL) && Chain(ns, freeHead, free, NULL)
    ensures Separated(a, node, first, j, free)
  {
  }

  lemma ChainNexts(ns: seq<Node>, ns': seq<Node>, head: int, l: seq<int>)
    requires Chain(ns, head, l, NULL) && |ns'| == |ns|
    requires forall i :: 0 <= i < |l| ==> ns'[l[i]].next == ns[l[i]].next
    ensures Chain(ns', head, l, NULL)
  {
  }

  lemma ChainLink(ns: seq<Node>, node: int, head: int, l: seq<int>)
    requires Chain(ns, head, l, NULL) && 0 <= node < |ns| && ns[node].next == head
    ensures Chain(ns, node, [node] + l, NULL)
  {
  }

  lemma StitchedAgrees(ns: seq<Node>, ns': seq<Node>, a: seq<int>, node: int, cur: int,
                       first: int, stop: int, free: seq<int>)
    requires 0 <= first <= stop < |a| && Separated(a, node, first, stop, free) && cur == a[stop]
    requires InRange(|ns|, a) && InRange(|ns|, free)
    requires 0 <= node < |ns| && 0 <= cur < |ns| && OnlyChanged(ns, ns', {node, cur})
    requires ns'[node] == ns[node].(next := cur) && ns'[cur].next == ns[cur].next
    ensures AgreeOn(ns, ns', a[..first]) && AgreeOn(ns, ns', free)
    ensures forall i :: 0 <= i < |a[stop..]| ==> ns'[a[stop..][i]].next == ns[a[stop..][i]].next
    ensures forall i :: stop < i < |a| ==> ns'[a[i]] == ns[a[i]]
  {
    assert a[stop..][0] == cur;
  }

  lemma StitchedApart(a: seq<int>, n: int, node: int, first: int, stop: int, free: seq<int>)
    requires 0 <= first <= stop < |a| && Separated(a, node, first, stop, free) && InRange(n, a) && 0 <= node < n
    ensures var l := a[..first] + [node] + a[stop..];
            Distinct(l) && Distinct(free) && Apart(l, free) && InRange(n, l)
  {
  }

  lemma StitchedSky(ns: seq<Node>, ns': seq<Node>, a: seq<int>, s: seq<Seg>, node: int, first: int, stop: int)
    requires 0 <= first <= stop < |a| && InRange(|ns|, a) && SkyOf(ns, a) == s && 0 <= node < |ns| == |ns'|
    requires AgreeOn(ns, ns', a[..first]) && forall i :: stop < i < |a| ==> ns'[a[i]] == ns[a[i]]
    requires ns'[node].x == ns[node].x && ns'[node].y == ns[node].y
    ensures var l := a[..first] + [node] + a[stop..];
            && InRange(|ns|, l)
            && SkyOf(ns', l) ==
               s[..first] + [Seg(ns[node].x, ns[node].y)] + [Seg(ns'[a[stop]].x, ns'[a[stop]].y)] + s[stop + 1..]
  {
    assert forall i :: 0 <= i < first ==> a[..first][i] == a[i];
  }

  /** No coordinate is truncated on conversion. */
  lemma SmallCoords(k: Packer, p: Place, w: int, h: int)
    requires 0 < w && 0 < h && 0 < k.align
    requires Sits(k.sky, RoundUp(w, k.align), p) && Width(k.sky) == k.width <= MAX_COORD && k.height <= MAX_COORD
    requires 0 <= p.y && p.y + h <= k.height
    ensures ToCoord(p.x) == p.x && ToCoord(p.y + h) == p.y + h && 0 <= p.x && p.x + w <= k.width
  {
    hide Highest, Profile, IsSkyline, ToCoord, Sits;
    SitsWithin(k.sky, RoundUp(w, k.align), p);
    CoordIs(p.x);
    CoordIs(p.y + h);
  }

  lemma CoordIs(v: int)
    requires 0 <= v <= MAX_COORD
    ensures ToCoord(v) == v
  {
  }

  /** The lists as they are after the splice are those of the specification. */
  lemma SplicedIs(k: Packer, p: Place, t: seq<Seg>, w: int, h: int, first: int, stop: int, k': Packer)
    requires 0 <= p.at < |k.sky| - 1 && t == Splice(k.sky, p.at, p.x, w, p.y + h)
    requires first == FirstSwallowed(k.sky, p.at, p.x) && stop == StopAt(k.sky, first, p.x + w)
    requires k'.sky == k.sky[..first] + [Seg(p.x, p.y + h)] + Moved(k.sky[stop], p.x + w) + k.sky[stop + 1..]
    requires k' == k.(sky := k'.sky, free := k.free - 1 + stop - first, placed := k.placed + [Rect(p.x, p.y, w, h)])
    ensures k' == k.(sky := t, free := k.free + |k.sky| - |t|, placed := k.placed + [Rect(p.x, p.y, w, h)])
  {
    SpliceParts(k.sky, p.at, p.x, w, p.y + h);
  }

  // ----- arrays of rectangles ------------------------------------------------

  datatype RectInfo = RectInfo(id: int, w: int, h: int, x: int, y: int, wasPacked: int)

  ghost predicate SmallRects(rs: seq<RectInfo>) {
    forall i :: 0 <= i < |rs| ==> 0 <= rs[i].w <= MAX_COORD && 0 <= rs[i].h <= MAX_COORD
  }

  /** The order of the first sort: higher first, then wider first. */
  predicate HeightBefore(p: RectInfo, q: RectInfo) {
    p.h > q.h || (p.h == q.h && p.w > q.w)
  }

  /** The heights do not rise in this order, and at one height the widths do not. */
  ghost predicate HighestFirst(rs: seq<RectInfo>, order: seq<int>) {
    |order| == |rs| && InRange(|rs|, order) &&
    forall i, j :: 0 <= i < j < |rs| ==>
      rs[order[j]].h * 0x1_0000 + rs[order[j]].w <= rs[order[i]].h * 0x1_0000 + rs[order[i]].w
  }

  lemma SortedIsHighestFirst(rs: seq<RectInfo>, order: seq<int>)
    requires SmallRects(rs) && |order| == |rs| && InRange(|rs|, order)
    requires forall i, j :: 0 <= i < j < |rs| ==> !HeightBefore(rs[order[j]], rs[order[i]])
    ensures HighestFirst(rs, order)
  {
  }

  ghost predicate IsArrangement(p: seq<int>, n: int) {
    |p| == n && InRange(n, p) && Distinct(p)
  }

  ghost function Arranged<T>(s: seq<T>, p: seq<int>): (t: seq<T>)
    requires IsArrangement(p, |s|)
    ensures |t| == |s| && forall i :: 0 <= i < |t| ==> t[i] == s[p[i]]
  {
    seq(|p|, i requires 0 <= i < |p| => s[p[i]])
  }

  ghost function Requests(rs: seq<RectInfo>): (steps: seq<Step>)
    requires SmallRects(rs)
    ensures |steps| == |rs| && forall i :: 0 <= i < |rs| ==> steps[i] == Request(rs[i].w, rs[i].h)
  {
    seq(|rs|, i requires 0 <= i < |rs| => Request(rs[i].w, rs[i].h))
  }

  ghost predicate SameRequest(r: RectInfo, r': RectInfo) {
    r'.id == r.id && r'.w == r.w && r'.h == r.h
  }

  /** The position that r gets when it is packed in state k. */
  ghost predicate Positioned(k: Packer, r: RectInfo) {
    && 0 < k.align && 0 <= r.w && 0 <= r.h
    && if r.w == 0 || r.h == 0 then r.x == 0 && r.y == 0
    else if Rejects(k, r.w, r.h) then r.x == MAX_COORD && r.y == MAX_COORD
    else
      var p := Best(k, r.w, r.h).value;
      r.x == p.x && r.y == p.y && 0 <= r.x && r.x + r.w <= MAX_COORD
  }

  /** What the caller reads in r after it was packed in state k: it is packed exactly
      if it is empty, or a node is free and there is room for it at some column. */
  ghost predicate Answers(k: Packer, r: RectInfo) {
    && Positioned(k, r)
    && r.wasPacked == if 0 < r.w && 0 < r.h && Refused(k, r.w, r.h) then 0 else 1
  }

  function Flagged(r: RectInfo): RectInfo {
    r.(wasPacked := if r.x == MAX_COORD && r.y == MAX_COORD then 0 else 1)
  }

  /** The marker is no position of a packed rectangle. */
  lemma FlagAnswers(k: Packer, r: RectInfo, r': RectInfo)
    requires Inv(k) && Positioned(k, r) && r' == Flagged(r)
    ensures Answers(k, r')
  {
    hide Best, Rejects, Refused, Inv;
    if 0 < r.w && 0 < r.h {
      RefusedIff(k, r.w, r.h);
    }
  }

  ghost function RectOf(r: RectInfo): Rect {
    Rect(r.x, r.y, r.w, r.h)
  }

  /** The rectangle takes space and was packed. */
  ghost predicate Occupies(r: RectInfo) {
    0 < r.w && 0 < r.h && r.wasPacked != 0
  }

  /** All that was packed lies inside the target, apart from all else that is on it. */
  ghost predicate SafelyPacked(k: Packer, rs: seq<RectInfo>) {
    && (forall i, j :: 0 <= i < |rs| && 0 <= j < |rs| && i != j && Occupies(rs[i]) && Occupies(rs[j]) ==>
          Disjoint(RectOf(rs[i]), RectOf(rs[j])))
    && (forall i :: 0 <= i < |rs| && Occupies(rs[i]) ==> Inside(k, rs[i]))
  }

  ghost predicate Inside(k: Packer, r: RectInfo) {
    && 0 <= r.x && r.x + r.w <= k.width && 0 <= r.y && r.y + r.h <= k.height
    && forall p <- k.placed :: Disjoint(p, RectOf(r))
  }

  /** The answers to the requests, in the order in which they were packed. */
  ghost predicate AllAnswered(k: Packer, rs: seq<RectInfo>, order: seq<int>, out: seq<RectInfo>) {
    && Inv(k) && SmallRects(rs) && IsArrangement(order, |rs|) && |out| == |rs|
    && forall j :: 0 <= j < |rs| ==>
         SameRequest(rs[order[j]], out[order[j]]) &&
         SmallRects(Arranged(rs, order)) && Answers(Run(k, Requests(Arranged(rs, order))[..j]), out[order[j]])
  }

  /** What was packed stays where it is. */
  lemma {:induction false} PlacedGrows(k: Packer, steps: seq<Step>, j: nat)
    requires Inv(k) && j <= |steps|
    ensures Run(k, steps[..j]).placed <= Run(k, steps).placed
    decreases |steps|
  {
    hide Inv, Best, Rejects, Splice;
    if j == |steps| {
      assert steps[..j] == steps;
    } else {
      var init := steps[..|steps| - 1];
      assert steps == init + [steps[|init|]] && init[..j] == steps[..j];
      RunSnoc(k, init, steps[|init|]);
      PlacedGrows(k, init, j);
      InvBasics(Run(k, init));
    }
  }

  /** The next request adds the rectangle that its answer describes. */
  lemma AnswerIsPlaced(k: Packer, r: RectInfo)
    requires Inv(k) && Answers(k, r) && Occupies(r)
    ensures 0 < k.align && 0 < k.numNodes
    ensures Apply(k, Request(r.w, r.h)).placed == k.placed + [RectOf(r)]
  {
    hide Inv, Best, Splice, Refused, Rejects;
    InvBasics(k);
    RefusedIff(k, r.w, r.h);
  }

  lemma AnswerInRun(k: Packer, steps: seq<Step>, j: nat, r: RectInfo)
    requires Inv(k) && j < |steps| && 0 <= r.w && 0 <= r.h && steps[j] == Request(r.w, r.h)
    requires Answers(Run(k, steps[..j]), r) && Occupies(r)
    ensures var before, after := Run(k, steps[..j]).placed, Run(k, steps[..j + 1]).placed;
            after == before + [RectOf(r)] && k.placed <= before && after <= Run(k, steps).placed
  {
    hide Inv, Answers, Occupies, Apply, RectOf;
    AnswerIsPlaced(Run(k, steps[..j]), r);
    assert steps[..j + 1] == steps[..j] + [steps[j]];
    RunSnoc(k, steps[..j], steps[j]);
    PlacedGrows(k, steps, j + 1);
    PlacedGrows(k, steps[..j], 0);
  }

  /** Two rectangles packed in one call. */
  lemma PackedRectsAreApart(k: Packer, steps: seq<Step>, i: nat, a: RectInfo, j: nat, b: RectInfo)
    requires Inv(k) && i < j < |steps| && Occupies(a) && Occupies(b)
    requires steps[i] == Request(a.w, a.h) && Answers(Run(k, steps[..i]), a)
    requires steps[j] == Request(b.w, b.h) && Answers(Run(k, steps[..j]), b)
    ensures Disjoint(RectOf(a), RectOf(b))
  {
    hide Inv, Answers, Occupies, Run, Disjoint, PairwiseDisjoint;
    var all := Run(k, steps).placed;
    AnswerInRun(k, steps, i, a);
    AnswerInRun(k, steps, j, b);
    var m, n := |Run(k, steps[..i]).placed|, |Run(k, steps[..j]).placed|;
    assert steps[..j][..i + 1] == steps[..i + 1];
    PlacedGrows(k, steps[..j], i + 1);
    assert m < n < |all| && all[m] == RectOf(a) && all[n] == RectOf(b);
    PlacedApart(Run(k, steps), m, n);
  }

  lemma PackedRectIsInside(k: Packer, steps: seq<Step>, i: nat, a: RectInfo)
    requires Inv(k) && i < |steps| && Occupies(a)
    requires steps[i] == Request(a.w, a.h) && Answers(Run(k, steps[..i]), a)
    ensures Inside(k, a)
  {
    hide Inv, Answers, Run, Disjoint, PairwiseDisjoint;
    var all := Run(k, steps).placed;
    AnswerInRun(k, steps, i, a);
    var m := |Run(k, steps[..i]).placed|;
    PlacedInside(Run(k, steps), m);
    forall p <- k.placed ensures Disjoint(p, RectOf(a)) {
      var e :| 0 <= e < |k.placed| && k.placed[e] == p;
      PlacedApart(Run(k, steps), e, m);
    }
  }

  /** From the positions in the order of packing to the answers in the order of the caller. */
  lemma FlagsAnswer(k: Packer, rs: seq<RectInfo>, order: seq<int>, back: seq<int>,
                    rs1: seq<RectInfo>, rs2: seq<RectInfo>, out: seq<RectInfo>)
    requires Inv(k) && SmallRects(rs) && IsArrangement(order, |rs|) && IsArrangement(back, |rs|)
    requires |rs1| == |rs2| == |out| == |rs| && SmallRects(rs1) && SmallRects(Arranged(rs, order))
    requires Requests(rs1) == Requests(Arranged(rs, order))
    requires forall i :: 0 <= i < |rs| ==> rs1[i] == rs[order[i]].(wasPacked := order[i])
    requires forall j :: 0 <= j < |rs| ==> back[order[j]] == j
    requires forall j :: 0 <= j < |rs| ==> SameRequest(rs1[j], rs2[j]) && Positioned(Run(k, Requests(rs1)[..j]), rs2[j])
    requires forall i :: 0 <= i < |rs| ==> out[i] == Flagged(rs2[back[i]])
    ensures AllAnswered(k, rs, order, out)
  {
    hide Inv, Answers, Positioned, Run;
    forall j | 0 <= j < |rs|
      ensures SameRequest(rs[order[j]], out[order[j]]) && Answers(Run(k, Requests(rs1)[..j]), out[order[j]])
    {
      FlagAnswers(Run(k, Requests(rs1)[..j]), rs2[j], out[order[j]]);
    }
  }

  /** What the caller reads in the array afterwards describes a safe packing. */
  lemma AnswersAreSafe(k: Packer, rs: seq<RectInfo>, order: seq<int>, back: seq<int>, out: seq<RectInfo>)
    requires AllAnswered(k, rs, order, out) && IsArrangement(back, |rs|)
    requires forall i :: 0 <= i < |rs| ==> order[back[i]] == i
    ensures SafelyPacked(k, out)
  {
    hide Inv, Answers, Occupies, Run, Disjoint, Inside;
    var sorted := Arranged(rs, order);
    if rs != [] {
      var steps := Requests(sorted);
      forall i | 0 <= i < |rs| && Occupies(out[i]) ensures Inside(k, out[i]) {
        AnswerOf(k, rs, order, back, out, i);
        PackedRectIsInside(k, steps, back[i], out[i]);
      }
      forall i, j | 0 <= i < |rs| && 0 <= j < |rs| && i != j && Occupies(out[i]) && Occupies(out[j])
        ensures Disjoint(RectOf(out[i]), RectOf(out[j]))
      {
        AnswerOf(k, rs, order, back, out, i);
        AnswerOf(k, rs, order, back, out, j);
        if back[i] < back[j] {
          PackedRectsAreApart(k, steps, back[i], out[i], back[j], out[j]);
        } else {
          PackedRectsAreApart(k, steps, back[j], out[j], back[i], out[i]);
          DisjointIsSymmetric(RectOf(out[j]), RectOf(out[i]));
        }
      }
    }
  }

  lemma DisjointIsSymmetric(a: Rect, b: Rect)
    requires Disjoint(a, b)
    ensures Disjoint(b, a)
  {
  }

  lemma AnswerOf(k: Packer, rs: seq<RectInfo>, order: seq<int>, back: seq<int>, out: seq<RectInfo>, i: nat)
    requires AllAnswered(k, rs, order, out) && IsArrangement(back, |rs|) && i < |rs|
    requires order[back[i]] == i
    ensures SmallRects(Arranged(rs, order)) && 0 <= back[i] < |rs| && 0 <= out[i].w && 0 <= out[i].h
    ensures Requests(Arranged(rs, order))[back[i]] == Request(out[i].w, out[i].h)
    ensures Answers(Run(k, Requests(Arranged(rs, order))[..back[i]]), out[i])
  {
    hide Inv, Answers, Run;
    var j := back[i];
    assert SameRequest(rs[order[j]], out[order[j]]);
  }

  lemma PlacedApart(k: Packer, i: nat, j: nat)
    requires Inv(k) && i < j < |k.placed|
    ensures Disjoint(k.placed[i], k.placed[j])
  {
  }

  lemma PlacedInside(k: Packer, n: nat)
    requires Inv(k) && n < |k.placed|
    ensures var r := k.placed[n]; 0 <= r.x && r.x + r.w <= k.width && 0 <= r.y && r.y + r.h <= k.height
  {
    assert Under(k.sky, k.height, k.placed[n]);
  }

  lemma PositionSmall(k: Packer, w: int, h: int)
    requires Inv(k) && k.width <= MAX_COORD && k.height <= MAX_COORD && 0 < w && 0 < h && !Rejects(k, w, h)
    ensures var p := Best(k, w, h).value;
            && ToCoord(p.x) == p.x && ToCoord(p.y) == p.y && 0 <= p.x && p.x + w <= k.width
  {
    hide Inv, Best, Splice, Covered, Rejects, PackOne, Sits;
    InvBasics(k);
    var p, t := PackOneShape(k, w, h);
    SmallCoords(k, p, w, h);
  }

  lemma PositionedIs(k: Packer, r: RectInfo)
    requires 0 < k.align && 0 <= r.w && 0 <= r.h
    requires r.w == 0 || r.h == 0 ==> r.x == 0 && r.y == 0
    requires 0 < r.w && 0 < r.h && Rejects(k, r.w, r.h) ==> r.x == MAX_COORD && r.y == MAX_COORD
    requires 0 < r.w && 0 < r.h && !Rejects(k, r.w, r.h) ==>
               var p := Best(k, r.w, r.h).value; r.x == p.x && r.y == p.y && 0 <= r.x && r.x + r.w <= MAX_COORD
    ensures Positioned(k, r)
  {
  }

  lemma NumberedRequests(rs: seq<RectInfo>, order: seq<int>, rs': seq<RectInfo>)
    requires SmallRects(rs) && IsArrangement(order, |rs|) && |rs'| == |rs|
    requires forall i :: 0 <= i < |rs| ==> rs'[i] == rs[order[i]].(wasPacked := order[i])
    ensures SmallRects(rs') && SmallRects(Arranged(rs, order))
    ensures Requests(rs') == Requests(Arranged(rs, order))
  {
  }

  /** The second sort undoes the first. */
  lemma BackInPlace(order: seq<int>, back: seq<int>)
    requires IsArrangement(order, |back|) && IsArrangement(back, |back|)
    requires forall i, j :: 0 <= i < j < |back| ==> order[back[i]] <= order[back[j]]
    ensures forall i :: 0 <= i < |back| ==> order[back[i]] == i
    ensures forall j :: 0 <= j < |back| ==> back[order[j]] == j
  {
    forall i | 0 <= i < |back| ensures order[back[i]] == i {
      AtLeast(order, back, i);
      AtMost(order, back, i);
    }
  }

  lemma {:induction false} AtLeast(order: seq<int>, back: seq<int>, i: nat)
    requires IsArrangement(order, |back|) && IsArrangement(back, |back|) && i < |back|
    requires forall i, j :: 0 <= i < j < |back| ==> order[back[i]] <= order[back[j]]
    ensures i <= order[back[i]]
  {
    if i > 0 {
      AtLeast(order, back, i - 1);
      assert back[i - 1] != back[i];
      assert order[back[i - 1]] != order[back[i]];
    }
  }

  lemma {:induction false} AtMost(order: seq<int>, back: seq<int>, i: nat)
    requires IsArrangement(order, |back|) && IsArrangement(back, |back|) && i < |back|
    requires forall i, j :: 0 <= i < j < |back| ==> order[back[i]] <= order[back[j]]
    ensures order[back[i]] <= i
    decreases |back| - i
  {
    if i < |back| - 1 {
      AtMost(order, back, i + 1);
      assert back[i] != back[i + 1];
      assert order[back[i]] != order[back[i + 1]];
    }
  }

  class Context {
    const width: int
    const height: int
    const numNodes: int
    const nodes: array<Node>  // the caller's nodes, then the two extra ones
    var align: int
    var bestFit: bool
    var activeHead: int
    var freeHead: int
    ghost var active: seq<int>
    ghost var free: seq<int>
    ghost var placed: seq<Rect>

    ghost predicate Linked()
      reads this, nodes
    {
      && 0 < numNodes && nodes.Length == numNodes + 2
      && Chain(nodes[..], activeHead, active, NULL)
      && Chain(nodes[..], freeHead, free, NULL)
      && Distinct(active) && Distinct(free) && Apart(active, free)
    }

    ghost function Sky(): seq<Seg>
      requires Linked()
      reads this, nodes
    {
      SkyOf(nodes[..], active)
    }

    ghost function Model(): Packer
      requires Linked()
      reads this, nodes
    {
      Packer(width, height, numNodes, align, bestFit, Sky(), |free|, placed)
    }

    ghost predicate Valid()
      reads this, nodes
    {
      Linked() && width <= MAX_COORD && height <= MAX_COORD && Inv(Model())
    }

    constructor InitTarget(width: int, height: int, numNodes: int)
      requires 0 < width <= MAX_COORD && 0 <= height <= MAX_COORD && 0 < numNodes
      ensures Valid() && fresh(nodes)
      ensures Model() == Init(width, height, numNodes)
    {
      this.width, this.height, this.numNodes := width, height, numNodes;
      nodes := new Node[numNodes + 2](i => Node(0, 0, if i < numNodes - 1 then i + 1 else NULL));
      bestFit := false;
      freeHead := 0;
      activeHead := numNodes;
      align := (width + numNodes - 1) / numNodes;
      active := [numNodes, numNodes + 1];
      free := seq(numNodes, i => i);
      placed := [];
      new;
      hide Inv, Chain, Init;
      nodes[numNodes] := Node(0, 0, numNodes + 1);
      nodes[numNodes + 1] := Node(ToCoord(width), 65535, NULL);
      InitLinked(nodes[..], numNodes);
      InitModel();
    }

    lemma InitModel()
      requires 0 < width <= MAX_COORD && 0 <= height <= MAX_COORD
      requires Linked() && active == [numNodes, numNodes + 1] && |free| == numNodes && placed == []
      requires align == CeilDiv(width, numNodes) && !bestFit
      requires nodes[numNodes] == Node(0, 0, numNodes + 1) && nodes[numNodes + 1] == Node(width, 65535, NULL)
      ensures Valid() && Model() == Init(width, height, numNodes)
    {
      hide Inv;
      InitInv(width, height, numNodes);
      assert Sky() == [Seg(0, 0), Seg(width, 65535)];
    }

    method SetupAllowOutOfMem(allow: bool)
      requires Valid()
      modifies this`align
      ensures Valid() && Model() == Apply(old(Model()), AllowOutOfMem(allow))
    {
      hide Inv, Chain;
      ApplyKeeps(Model(), AllowOutOfMem(allow));
      if allow {
        align := 1;
      } else {
        align := (width + numNodes - 1) / numNodes;
      }
    }

    method SetupHeuristic(best: bool)
      requires Valid()
      modifies this`bestFit
      ensures Valid() && Model() == Apply(old(Model()), SetHeuristic(best))
    {
      ApplyKeeps(Model(), SetHeuristic(best));
      bestFit := best;
    }

    /** What the node of the i-th element holds. */
    lemma At(i: int)
      requires Linked() && 0 <= i < |active|
      ensures 0 <= active[i] < nodes.Length && (i == 0 ==> activeHead == active[0])
      ensures Sky()[i] == Seg(nodes[active[i]].x, nodes[active[i]].y)
      ensures nodes[active[i]].next == if i + 1 < |active| then active[i + 1] else NULL
    {
      assert nodes[..][active[i]] == nodes[active[i]];
    }

    /** Lowest position of a window of width w at x0, which starts in node `first`,
        the element `at` of the active list; and the waste under it. */
    method FindMinY(first: int, x0: int, w: int, ghost at: int) returns (minY: int, waste: int)
      requires Linked() && IsSkyline(Sky()) && FloorLast(Sky()) && 0 <= at < |active| - 1 && first == active[at]
      requires 0 < w && x0 + w <= Width(Sky()) && Sky()[at].x <= x0 < Sky()[at + 1].x
      ensures 0 <= x0 && minY == Highest(Profile(Sky()), x0, x0 + w)
      ensures waste == FreeArea(Sky(), x0, w)
    {
      hide Linked, IsSkyline, FloorLast, Profile, SkyOf, Highest, ScanWaste, ComputedWaste, FreeArea;
      ghost var s := Sky();
      ghost var i := at;
      var node, x1 := first, x0 + w;
      var visited := 0;
      minY, waste := 0, 0;
      ScanStart(s, at, x0, w);
      At(at);
      while nodes[node].x < x1
        invariant 0 <= i < |s| && node == active[i] && 0 <= node < nodes.Length && nodes[node].x == s[i].x
        invariant ScanWaste(s, i, x0, w, minY, visited, waste) == ScanWaste(s, at, x0, w, 0, 0, 0)
        invariant i == |s| - 1 ==> x1 <= s[i].x
        invariant i == at || x0 < s[i].x
        invariant minY == Highest(Profile(s), x0, Within(s[i].x, x0, x1))
        decreases |s| - i
      {
        ScanNext(s, i, x0, w);
        At(i);
        At(i + 1);
        var next := nodes[node].next;
        ScanOnce(s, i, x0, w, minY, visited, waste);
        if nodes[node].y > minY {
          waste := waste + visited * (nodes[node].y - minY);
          minY := nodes[node].y;
          if nodes[node].x < x0 {
            visited := visited + (nodes[next].x - x0);
          } else {
            visited := visited + (nodes[next].x - nodes[node].x);
          }
        } else {
          var under := nodes[next].x - nodes[node].x;
          if under + visited > w {
            under := w - visited;
          }
          waste := waste + under * (minY - nodes[node].y);
          visited := visited + under;
        }
        node := next;
        i := i + 1;
      }
      ScanDone(s, at, i, x0, w, minY, visited, waste);
      ComputedWasteIsFreeArea(s, at, x0, w);
    }

    /** The link through which the i-th element of the active list is reached. */
    ghost function LinkTo(i: int): Link
      requires 0 <= i <= |active|
      reads this
    {
      if i == 0 then HeadLink else NextOf(active[i - 1])
    }

    /** The program variables of the search hold the best place found so far. */
    ghost predicate Keeps(best: Option<Place>, y: int, waste: int, link: Link)
      reads this
    {
      match best
      case None => y == FAR && link.NoLink?
      case Some(p) => 0 <= p.at < |active| && y == p.y && (bestFit ==> waste == p.waste) && link == LinkTo(p.at)
    }

    method Follow(link: Link, ghost i: int) returns (node: int)
      requires Linked() && 0 <= i < |active| && link == LinkTo(i)
      ensures node == active[i]
    {
      if i > 0 {
        At(i - 1);
      }
      node := if link.HeadLink? then activeHead else nodes[link.node].next;
    }

    /** The loop over all positions with the left edge at a node. */
    method SearchLeft(w: int, h: int) returns (bestY: int, bestWaste: int, link: Link, ghost best: Option<Place>)
      requires Linked() && Searchable(Model(), w)
      ensures best == Pick(bestFit, Collect(Lefts(Model(), w, h), |active|))
      ensures Keeps(best, bestY, bestWaste, link)
      ensures best.Some? ==> best.value.x == Sky()[best.value.at].x
    {
      hide Linked, Searchable, IsSkyline, Lefts, Pick, Collect, SkyOf, Better, Highest, FreeArea, FloorLast, Profile;
      ghost var k := Model();
      ghost var s := k.sky;
      ghost var i := 0;
      bestY, bestWaste, link, best := FAR, FAR, NoLink, None;
      var node, prev := activeHead, HeadLink;
      LeftStart(k, w, h);
      At(0);
      while nodes[node].x + w <= width
        invariant 0 <= i < |s| && node == active[i] && 0 <= node < nodes.Length && nodes[node].x == s[i].x
        invariant prev == LinkTo(i)
        invariant best == Pick(bestFit, Collect(Lefts(k, w, h), i))
        invariant Keeps(best, bestY, bestWaste, link)
        invariant best.Some? ==> best.value.at < i && best.value.x == s[best.value.at].x < s[i].x
        decreases |s| - i
      {
        LeftInside(k, w, i);
        At(i);
        At(i + 1);
        var y, waste := FindMinY(node, nodes[node].x, w, i);
        LeftStep(k, w, h, i, y, waste, best);
        if !bestFit {
          if y < bestY {
            bestY, link := y, prev;
            best := Some(Place(s[i].x, y, waste, i));
          }
        } else if y + h <= height {
          if y < bestY || (y == bestY && waste < bestWaste) {
            bestY, bestWaste, link := y, waste, prev;
            best := Some(Place(s[i].x, y, waste, i));
          }
        }
        prev := NextOf(node);
        node := nodes[node].next;
        i := i + 1;
      }
      LeftEnd(k, w, h, i);
    }

    /** The first node that a window's right edge can be at. */
    method FirstAdmissible(w: int) returns (tail: int, ghost t: int)
      requires Linked() && Searchable(Model(), w)
      ensures 0 <= t < |active| && tail == active[t] && 0 <= tail && w <= Sky()[t].x
      ensures t > 0 ==> Sky()[t - 1].x < w
    {
      hide Linked, IsSkyline, SkyOf;
      ghost var s := Sky();
      tail, t := activeHead, 0;
      RightStart(Model(), w);
      At(0);
      while nodes[tail].x < w
        invariant 0 <= t < |s| && tail == active[t] && 0 <= tail < nodes.Length && nodes[tail].x == s[t].x
        invariant t > 0 ==> s[t - 1].x < w
        decreases |s| - t
      {
        RightSkip(Model(), w, t);
        At(t);
        At(t + 1);
        tail := nodes[tail].next;
        t := t + 1;
      }
    }

    /** Takes a right-aligned position if it is better than the best one so far. */
    method Prefer(x0: int, y0: int, waste0: int, link0: Link, ghost best0: Option<Place>,
                  xpos: int, y: int, waste: int, prev: Link, h: int, ghost m: int)
      returns (bestX: int, bestY: int, bestWaste: int, link: Link, ghost best: Option<Place>)
      requires bestFit && Keeps(best0, y0, waste0, link0) && (best0.Some? ==> x0 == best0.value.x)
      requires 0 <= m < |active| && prev == LinkTo(m) && y < FAR
      ensures var p := Place(xpos, y, waste, m);
              best == if y + h <= height && (best0.None? || Better(true, p, best0.value)) then Some(p) else best0
      ensures Keeps(best, bestY, bestWaste, link) && (best.Some? ==> bestX == best.value.x)
    {
      bestX, bestY, bestWaste, link, best := x0, y0, waste0, link0, best0;
      if y + h <= height {
        if y <= bestY {
          if y < bestY || waste < bestWaste || (waste == bestWaste && xpos < bestX) {
            bestX, bestY, bestWaste, link := xpos, y, waste, prev;
            best := Some(Place(xpos, y, waste, m));
          }
        }
      }
    }

    /** The loop over all positions with the right edge at a node. */
    method SearchRight(w: int, h: int, y0: int, waste0: int, link0: Link, x0: int, ghost best0: Option<Place>)
      returns (bestX: int, bestY: int, link: Link, ghost best: Option<Place>)
      requires Linked() && Searchable(Model(), w) && bestFit
      requires best0 == Pick(bestFit, Collect(Lefts(Model(), w, h), |active|))
      requires Keeps(best0, y0, waste0, link0) && (best0.Some? ==> x0 == best0.value.x)
      ensures best == Pick(bestFit, Candidates(Model(), w, h))
      ensures best.None? ==> link.NoLink?
      ensures best.Some? ==> 0 <= best.value.at < |active| && link == LinkTo(best.value.at)
      ensures best.Some? ==> bestX == best.value.x && bestY == best.value.y
    {
      hide Linked, Searchable, IsSkyline, Lefts, Rights, Pick, Collect, SkyOf, Highest, FreeArea, FloorLast, Profile,
        Better;
      ghost var k := Model();
      ghost var s := k.sky;
      bestX, bestY, link, best := x0, y0, link0, best0;
      var bestWaste := waste0;
      var tail;
      ghost var t;
      tail, t := FirstAdmissible(w);
      RightStart(k, w);
      At(0);
      RightSkipped(k, w, h, t);
      var node, prev := activeHead, HeadLink;
      ghost var m := 0;
      while tail != NULL
        invariant 0 <= m < |s| - 1 && node == active[m] && prev == LinkTo(m)
        invariant 0 <= t <= |s| && tail == (if t < |s| then active[t] else NULL)
        invariant t < |s| ==> 0 <= tail && w <= s[t].x && s[m].x <= s[t].x - w
        invariant best == Pick(bestFit, Collect(Lefts(k, w, h), |s|) + Collect(Rights(k, w, h), t))
        invariant Keeps(best, bestY, bestWaste, link) && (best.Some? ==> bestX == best.value.x)
        decreases |s| - t
      {
        At(t);
        RightNext(k, w, t);
        var xpos := nodes[tail].x - w;
        node, prev, m := AdvanceTo(node, prev, xpos, m);
        var y, waste := FindMinY(node, xpos, w, m);
        RightStep(k, w, h, t, m, y, waste, best);
        bestX, bestY, bestWaste, link, best :=
          Prefer(bestX, bestY, bestWaste, link, best, xpos, y, waste, prev, h, m);
        if t + 1 < |s| {
          At(t + 1);
        }
        tail := nodes[tail].next;
        t := t + 1;
      }
    }

    /** Goes on to the node whose segment covers xpos. */
    method AdvanceTo(node0: int, prev0: Link, xpos: int, ghost m0: int) returns (node: int, prev: Link, ghost m: int)
      requires Linked() && IsSkyline(Sky()) && 0 <= m0 < |active| - 1 && node0 == active[m0] && prev0 == LinkTo(m0)
      requires Sky()[m0].x <= xpos < Width(Sky())
      ensures 0 <= m < |active| - 1 && node == active[m] && prev == LinkTo(m)
      ensures Sky()[m].x <= xpos < Sky()[m + 1].x
      ensures 0 <= node < nodes.Length && nodes[node].x == Sky()[m].x
    {
      hide Linked, SkyOf;
      node, prev, m := node0, prev0, m0;
      At(m);
      At(m + 1);
      while nodes[nodes[node].next].x <= xpos
        invariant 0 <= m < |active| - 1 && node == active[m] && prev == LinkTo(m)
        invariant 0 <= node < nodes.Length && nodes[node].x == Sky()[m].x <= xpos
        invariant nodes[node].next == active[m + 1] && 0 <= active[m + 1] < nodes.Length
        invariant nodes[active[m + 1]].x == Sky()[m + 1].x
        decreases |active| - m
      {
        At(m + 1);
        At(m + 2);
        prev := NextOf(node);
        node := nodes[node].next;
        m := m + 1;
      }
    }

    /** The best position for a w0 x h rectangle under the current heuristic. */
    method FindBestPos(w0: int, h: int) returns (fr: FindResult, ghost best: Option<Place>)
      requires Valid() && 0 < w0 && 0 < h
      ensures best == Best(Model(), w0, h)
      ensures match Best(Model(), w0, h)
              case None => fr.link.NoLink?
              case Some(p) => 0 <= p.at < |active| && fr == FindResult(p.x, p.y, LinkTo(p.at))
    {
      hide Linked, Inv, Candidates, Pick, Collect;
      InvBasics(Model());
      var w := w0 + align - 1;
      w := w - w % align;
      assert w == RoundUp(w0, align);
      if w > width || h > height {
        return FindResult(0, 0, NoLink), None;
      }
      var y, waste, link;
      y, waste, link, best := SearchLeft(w, h);
      var x := 0;
      if !link.NoLink? {
        var node := Follow(link, best.value.at);
        At(best.value.at);
        x := nodes[node].x;
      }
      if bestFit {
        x, y, link, best := SearchRight(w, h, y, waste, link, x, best);
      } else {
        NoRights(Model(), w, h);
      }
      fr := FindResult(x, y, link);
    }

    /** Takes a free node for the new segment and links it in where its position
        starts; the segments from `cur` on are not linked in any more. */
    method Insert(link: Link, x: int, top: int, ghost at: int) returns (node: int, cur: int)
      requires Linked() && 0 <= at < |active| - 1 && link == LinkTo(at) && freeHead != NULL
      modifies nodes, this`activeHead, this`freeHead
      ensures free != [] && node == free[0]
      ensures InTransit(nodes[..], activeHead, freeHead, active, old(Sky()), node, cur,
                        FirstSwallowed(old(Sky()), at, x), FirstSwallowed(old(Sky()), at, x), free[1..])
      ensures 0 <= node < nodes.Length && nodes[node].x == ToCoord(x) && nodes[node].y == ToCoord(top)
    {
      hide SkyOf, Chain, Distinct, Apart, InTransit;
      ghost var ns0 := nodes[..];
      At(at);
      At(at + 1);
      if at > 0 {
        At(at - 1);
      }
      FreeNode(ns0, activeHead, freeHead, active, free, at);
      node := freeHead;
      nodes[node] := Node(ToCoord(x), ToCoord(top), nodes[node].next);
      freeHead := nodes[node].next;
      cur := if link.HeadLink? then activeHead else nodes[link.node].next;
      if nodes[cur].x < x {
        var next := nodes[cur].next;
        nodes[cur] := nodes[cur].(next := node);
        cur := next;
        CutOff(ns0, nodes[..], old(activeHead), activeHead, old(freeHead), active, free, at + 1);
      } else {
        if link.HeadLink? {
          activeHead := node;
        } else {
          nodes[link.node] := nodes[link.node].(next := node);
        }
        CutOff(ns0, nodes[..], old(activeHead), activeHead, old(freeHead), active, free, at);
      }
    }

    /** Frees the nodes whose segments end at or left of r. */
    method Release(cur0: int, r: int, ghost a: seq<int>, ghost s: seq<Seg>, ghost node: int, ghost first: int,
                   ghost free0: seq<int>)
      returns (cur: int, ghost stop: int, ghost freed: seq<int>)
      requires InTransit(nodes[..], activeHead, freeHead, a, s, node, cur0, first, first, free0)
      requires 0 <= node < nodes.Length
      modifies nodes, this`freeHead
      ensures 0 <= first <= stop < |s| && stop == StopAt(s, first, r)
      ensures InTransit(nodes[..], activeHead, freeHead, a, s, node, cur, first, stop, freed)
      ensures |freed| == |free0| + stop - first
      ensures nodes[node] == old(nodes[node])
    {
      hide Chain, Separated, InTransit, SkyOf, StopAt;
      cur, freed := cur0, free0;
      ghost var j := first;
      TransitAt(nodes[..], activeHead, freeHead, a, s, node, cur, first, j, freed);
      while nodes[cur].next != NULL && nodes[nodes[cur].next].x <= r
        invariant InTransit(nodes[..], activeHead, freeHead, a, s, node, cur, first, j, freed)
        invariant 0 <= cur < nodes.Length && (nodes[cur].next == NULL || 0 <= nodes[cur].next < nodes.Length)
        invariant first <= j < |a| == |s| && StopAt(s, first, r) == StopAt(s, j, r)
        invariant |freed| == |free0| + j - first
        invariant nodes[node] == old(nodes[node])
        decreases |a| - j
      {
        TransitAt(nodes[..], activeHead, freeHead, a, s, node, cur, first, j, freed);
        StopNext(s, j, r);
        FreeOne(nodes[..], activeHead, freeHead, a, s, node, cur, first, j, freed);
        var next := nodes[cur].next;
        ghost var ns := nodes[..];
        nodes[cur] := nodes[cur].(next := freeHead);
        assert nodes[..] == ns[cur := ns[cur].(next := freeHead)];
        freeHead := cur;
        freed := [cur] + freed;
        cur := next;
        j := j + 1;
        TransitAt(nodes[..], activeHead, freeHead, a, s, node, cur, first, j, freed);
      }
      TransitAt(nodes[..], activeHead, freeHead, a, s, node, cur, first, j, freed);
      StopHere(s, j, r);
      stop := j;
    }

    /** Links the new node to the rest of the list, and moves the first segment of
        the rest out of the way. */
    method Stitch(node: int, cur: int, r: int, ghost s: seq<Seg>, ghost first: int, ghost stop: int,
                  ghost freed: seq<int>,
                  ghost rect: Rect)
      requires 0 < numNodes && nodes.Length == numNodes + 2 && 0 <= r <= MAX_COORD && 0 <= node < nodes.Length
      requires InTransit(nodes[..], activeHead, freeHead, active, s, node, cur, first, stop, freed)
      modifies nodes, this`active, this`free, this`placed
      ensures Linked() && free == freed && placed == old(placed) + [rect]
      ensures |s| == old(|active|) && 0 <= first <= stop < |s|
      ensures Sky() == s[..first] + [Seg(old(nodes[node].x), old(nodes[node].y))] + Moved(s[stop], r) + s[stop + 1..]
    {
      hide Chain, Separated, InTransit, SkyOf, Distinct, Apart;
      ghost var ns := nodes[..];
      TransitAt(ns, activeHead, freeHead, active, s, node, cur, first, stop, freed);
      nodes[node] := nodes[node].(next := cur);
      if nodes[cur].x < r {
        nodes[cur] := nodes[cur].(x := ToCoord(r));
      }
      Stitched(ns, nodes[..], activeHead, freeHead, active, s, node, cur, first, stop, freed);
      active := active[..first] + [node] + active[stop..];
      free := freed;
      placed := placed + [rect];
    }

    lemma HeadTellsFree()
      requires Linked()
      ensures freeHead == NULL <==> free == []
      ensures 0 < numNodes && nodes.Length == numNodes + 2
    {
    }

    /** Puts the new segment of a w x h rectangle on place p into the skyline. */
    method PutOnSkyline(link: Link, x: int, y: int, w: int, h: int, ghost p: Place)
      requires Linked() && freeHead != NULL && 0 < w && 0 < h
      requires 0 <= p.at < |active| - 1 && link == LinkTo(p.at) && x == p.x && y == p.y
      requires 0 <= x && x + w <= MAX_COORD && 0 <= y && y + h <= MAX_COORD
      modifies this`active, this`free, this`activeHead, this`freeHead, this`placed, nodes
      ensures Linked()
      ensures var k, t := old(Model()), Splice(old(Sky()), p.at, x, w, y + h);
              Model() == k.(sky := t, free := k.free + |k.sky| - |t|, placed := k.placed + [Rect(x, y, w, h)])
    {
      hide Linked, InTransit, StopAt, SkyOf, Splice, FirstSwallowed, Moved;
      ghost var k := Model();
      HeadTellsFree();
      var node, cur := Insert(link, x, y + h, p.at);
      ghost var first := FirstSwallowed(k.sky, p.at, p.x);
      ghost var stop, freed;
      cur, stop, freed := Release(cur, x + w, active, k.sky, node, first, free[1..]);
      Stitch(node, cur, x + w, k.sky, first, stop, freed, Rect(x, y, w, h));
      SplicedIs(k, p, Splice(k.sky, p.at, x, w, y + h), w, h, first, stop, Model());
    }

    /** Packs one rectangle, if the heuristic finds a place and a node is free. */
    method PackRectangle(w: int, h: int) returns (fr: FindResult)
      requires Valid() && 0 < w && 0 < h
      modifies this, nodes
      ensures Valid() && Model() == PackOne(old(Model()), w, h)
      ensures fr.link.NoLink? <==> Rejects(old(Model()), w, h)
      ensures fr.link.NoLink? <==> Refused(old(Model()), w, h)
      ensures !fr.link.NoLink? ==>
                var p := Best(old(Model()), w, h).value; fr.x == p.x && fr.y == p.y
    {
      hide Linked, Inv, Best, Sits, Splice, Covered, Refused;
      ghost var k := Model();
      InvBasics(k);
      RefusedIff(k, w, h);
      HeadTellsFree();
      var res, best := FindBestPos(w, h);
      if res.link.NoLink? || res.y + h > height || freeHead == NULL {
        return res.(link := NoLink);
      }
      ghost var p, t := PackOneShape(k, w, h);
      SmallCoords(k, p, w, h);
      PackOneKeeps(k, w, h);
      PutOnSkyline(res.link, res.x, res.y, w, h, p);
      fr := res;
    }

    /** Packs all rectangles of an array, the highest first, and answers in the
        order in which they came.  The parameters `order` and `back` are the
        arrangements that the two sorts of the array arrive at. */
    method PackRects(rects: array<RectInfo>, order: seq<int>, back: seq<int>) returns (allPacked: bool)
      requires Valid() && SmallRects(rects[..])
      requires IsArrangement(order, rects.Length) && IsArrangement(back, rects.Length)
      requires forall i, j :: 0 <= i < j < rects.Length ==> !HeightBefore(rects[order[j]], rects[order[i]])
      requires forall i, j :: 0 <= i < j < rects.Length ==> order[back[i]] <= order[back[j]]
      modifies this, nodes, rects
      ensures Valid() && Model() == Run(old(Model()), Requests(Arranged(old(rects[..]), order)))
      ensures AllAnswered(old(Model()), old(rects[..]), order, rects[..])
      ensures HighestFirst(old(rects[..]), order) && SafelyPacked(old(Model()), rects[..])
      ensures allPacked <==> forall i :: 0 <= i < rects.Length ==> rects[i].wasPacked != 0
    {
      hide Inv, Linked, Answers, PackOne, Rejects, SafelyPacked, AllAnswered, Positioned, HighestFirst;
      ghost var rs0, k0 := rects[..], Model();
      SortedIsHighestFirst(rs0, order);
      Number(rects);
      Rearrange(rects, order);
      ghost var rs1 := rects[..];
      NumberedRequests(rs0, order, rs1);
      PackSorted(rects);
      ghost var rs2 := rects[..];
      Rearrange(rects, back);
      BackInPlace(order, back);
      allPacked := SetFlags(rects);
      FlagsAnswer(k0, rs0, order, back, rs1, rs2, rects[..]);
      AnswersAreSafe(k0, rs0, order, back, rects[..]);
    }

    /** The loop that packs the sorted rectangles one after the other. */
    method PackSorted(rects: array<RectInfo>)
      requires Valid() && SmallRects(rects[..])
      modifies this, nodes, rects
      ensures Valid() && Model() == Run(old(Model()), Requests(old(rects[..])))
      ensures forall j :: 0 <= j < rects.Length ==>
                rects[j].wasPacked == old(rects[j].wasPacked) && SameRequest(old(rects[..])[j], rects[j]) &&
                Positioned(Run(old(Model()), Requests(old(rects[..]))[..j]), rects[j])
    {
      hide Inv, Linked, Best, Rejects, Refused, PackOne, Positioned;
      ghost var rs, k0 := rects[..], Model();
      ghost var steps := Requests(rs);
      var i := 0;
      assert steps[..0] == [];
      while i < rects.Length
        invariant 0 <= i <= rects.Length && Valid() && Model() == Run(k0, steps[..i])
        invariant forall j :: i <= j < rects.Length ==> rects[j] == rs[j]
        invariant forall j :: 0 <= j < i ==>
                    rects[j].wasPacked == rs[j].wasPacked && SameRequest(rs[j], rects[j]) &&
                    Positioned(Run(k0, steps[..j]), rects[j])
      {
        ghost var k := Model();
        InvBasics(k);
        var w, h := rects[i].w, rects[i].h;
        if w == 0 || h == 0 {
          rects[i] := rects[i].(x := 0, y := 0);
        } else {
          var fr := PackRectangle(w, h);
          if !fr.link.NoLink? {
            PositionSmall(k, w, h);
            rects[i] := rects[i].(x := ToCoord(fr.x), y := ToCoord(fr.y));
          } else {
            rects[i] := rects[i].(x := MAX_COORD, y := MAX_COORD);
          }
        }
        PositionedIs(k, rects[i]);
        assert steps[..i + 1] == steps[..i] + [steps[i]];
        RunSnoc(k0, steps[..i], steps[i]);
        i := i + 1;
      }
      assert steps[..i] == steps;
    }
  }

  /** Remembers every rectangle's index in the flag field. */
  method Number(rects: array<RectInfo>)
    modifies rects
    ensures forall i :: 0 <= i < rects.Length ==> rects[i] == old(rects[i]).(wasPacked := i)
  {
    for i := 0 to rects.Length
      invariant forall j :: 0 <= j < rects.Length ==>
                  rects[j] == if j < i then old(rects[j]).(wasPacked := j) else old(rects[j])
    {
      rects[i] := rects[i].(wasPacked := i);
    }
  }

  /** What a sort does to the array, given the arrangement it arrives at. */
  method Rearrange(rects: array<RectInfo>, p: seq<int>)
    requires IsArrangement(p, rects.Length)
    modifies rects
    ensures rects[..] == Arranged(old(rects[..]), p)
  {
    var copy := rects[..];
    for i := 0 to rects.Length
      invariant forall j :: 0 <= j < i ==> rects[j] == copy[p[j]]
    {
      rects[i] := copy[p[i]];
    }
  }

  /** Turns positions into flags: the marker position means not packed. */
  method SetFlags(rects: array<RectInfo>) returns (allPacked: bool)
    modifies rects
    ensures forall i :: 0 <= i < rects.Length ==> rects[i] == Flagged(old(rects[i]))
    ensures allPacked <==> forall i :: 0 <= i < rects.Length ==> rects[i].wasPacked != 0
  {
    allPacked := true;
    for i := 0 to rects.Length
      invariant forall j :: 0 <= j < rects.Length ==>
                  rects[j] == if j < i then Flagged(old(rects[j])) else old(rects[j])
      invariant allPacked <==> forall j :: 0 <= j < i ==> rects[j].wasPacked != 0
    {
      var packed := !(rects[i].x == MAX_COORD && rects[i].y == MAX_COORD);
      rects[i] := rects[i].(wasPacked := if packed then 1 else 0);
      if rects[i].wasPacked == 0 {
        allPacked := false;
      }
    }
  }
}
