/** The debugger's memory access breakpoints: leaving out a breakpoint that is
    covered by one in the database must not lose a hit. */
module Breakpoints {
  import opened Basics
  import opened Wrappers

  datatype AccessWidth = Byte | Hword | Word | Any

  datatype AccessType = Read | Write | ReadWrite {
    predicate Reads() {
      this != Write
    }

    predicate Writes() {
      this != Read
    }
  }

  datatype HitType = Log | Suspend | LogAndSuspend

  datatype Range = Range(min: u32, max: u32) {
    predicate Valid() {
      min < max
    }

    predicate Contains(address: u32) {
      min <= address < max
    }

    predicate Includes(r: Range) {
      min <= r.min && r.max <= max
    }
  }

  datatype AccessBreakpoint = AccessBreakpoint(range: Range, width: AccessWidth, kind: AccessType,
                                               data: Option<u32>, hitType: HitType, enabled: bool)
  {
    /** The comparison that a search makes: this one is in the database. */
    predicate Equals(other: AccessBreakpoint) {
      && range.Includes(other.range)
      && other.width == width
      && other.kind == kind
      && (width.Any? || other.data == data)
    }

    predicate HitsRead(address: u32, w: AccessWidth) {
      enabled && (width.Any? || width == w) && range.Contains(address) && kind.Reads()
    }

    predicate HitsWrite(address: u32, value: u32, w: AccessWidth) {
      && enabled && (width.Any? || width == w) && range.Contains(address) && kind.Writes()
      && (data.None? || data.value == value)
    }
  }

  // ----- what the database means ---------------------------------------------

  predicate ReadHits(db: seq<AccessBreakpoint>, address: u32, w: AccessWidth) {
    exists i :: 0 <= i < |db| && db[i].HitsRead(address, w)
  }

  predicate WriteHits(db: seq<AccessBreakpoint>, address: u32, value: u32, w: AccessWidth) {
    exists i :: 0 <= i < |db| && db[i].HitsWrite(address, value, w)
  }

  predicate Has(db: seq<AccessBreakpoint>, bp: AccessBreakpoint) {
    exists i :: 0 <= i < |db| && db[i].Equals(bp)
  }

  /** Breakpoint e in the database keeps bp from being added. */
  predicate Suppresses(e: AccessBreakpoint, bp: AccessBreakpoint) {
    || e.Equals(bp.(width := Any, kind := ReadWrite))
    || e.Equals(bp.(kind := ReadWrite))
    || e.Equals(bp.(width := Any))
    || e.Equals(bp)
  }

  predicate Suppressed(db: seq<AccessBreakpoint>, bp: AccessBreakpoint) {
    exists i :: 0 <= i < |db| && Suppresses(db[i], bp)
  }

  function Added(db: seq<AccessBreakpoint>, bp: AccessBreakpoint): seq<AccessBreakpoint> {
    if Suppressed(db, bp) then db else db + [bp]
  }

  function AddAll(db: seq<AccessBreakpoint>, bps: seq<AccessBreakpoint>): seq<AccessBreakpoint> {
    if bps == [] then db else Added(AddAll(db, bps[..|bps| - 1]), bps[|bps| - 1])
  }

  /** Were both switched on and neither watched for a value, e would hit whatever bp hits; and e
      watches for the same value, unless it watches any width. */
  ghost predicate StandsIn(e: AccessBreakpoint, bp: AccessBreakpoint) {
    var e', bp' := e.(enabled := true, data := None), bp.(enabled := true, data := None);
    && (forall address, w :: bp'.HitsRead(address, w) ==> e'.HitsRead(address, w))
    && (forall address, value, w :: bp'.HitsWrite(address, value, w) ==> e'.HitsWrite(address, value, w))
    && (e.width.Any? || e.data == bp.data)
  }

  /** A breakpoint is turned away exactly for one that stands in for it. */
  lemma SuppressesIff(e: AccessBreakpoint, bp: AccessBreakpoint)
    requires bp.range.Valid()
    ensures Suppresses(e, bp) <==> StandsIn(e, bp)
  {
    if StandsIn(e, bp) {
      var e', bp' := e.(enabled := true, data := None), bp.(enabled := true, data := None);
      var w := if !e.width.Any? && bp.width.Any? then if e.width.Byte? then Word else Byte else bp.width;
      var last: u32 := bp.range.max - 1;
      assert bp.kind.Reads() ==> bp'.HitsRead(bp.range.min, w) && bp'.HitsRead(last, w);
      assert bp.kind.Writes() ==> bp'.HitsWrite(bp.range.min, 0, w) && bp'.HitsWrite(last, 0, w);
    }
  }

  lemma SuppressedMeans(db: seq<AccessBreakpoint>, bp: AccessBreakpoint)
    ensures bp.range.Valid() ==> (Suppressed(db, bp) <==> exists i :: 0 <= i < |db| && StandsIn(db[i], bp))
  {
    if bp.range.Valid() {
      hide StandsIn, Suppresses;
      forall i | 0 <= i < |db| ensures Suppresses(db[i], bp) <==> StandsIn(db[i], bp) {
        SuppressesIff(db[i], bp);
      }
    }
  }

  /** With equal values, or none, that is: it hits everything that bp hits. */
  lemma StandsInForHits(e: AccessBreakpoint, bp: AccessBreakpoint)
    requires bp.range.Valid() && e.enabled && bp.enabled && e.data == bp.data
    ensures Suppresses(e, bp) <==>
            (forall address, w :: bp.HitsRead(address, w) ==> e.HitsRead(address, w)) && CoversWrites(e, bp)
  {
    SuppressesIff(e, bp);
    var e', bp' := e.(enabled := true, data := None), bp.(enabled := true, data := None);
    var v: u32 := if bp.data.Some? then bp.data.value else 0;
    forall address, w ensures bp'.HitsRead(address, w) == bp.HitsRead(address, w)
      ensures e'.HitsRead(address, w) == e.HitsRead(address, w)
    {
    }
    forall address, value, w ensures bp'.HitsWrite(address, value, w) == bp.HitsWrite(address, v, w)
      ensures e'.HitsWrite(address, value, w) == e.HitsWrite(address, v, w)
    {
    }
  }

  class BreakpointDatabase {
    var accessBreakpoints: seq<AccessBreakpoint>

    method AddAccessBreakpoint(bp: AccessBreakpoint)
      modifies this
      ensures accessBreakpoints == Added(old(accessBreakpoints), bp)
      ensures bp.range.Valid() ==>
                accessBreakpoints ==
                old(accessBreakpoints) +
                if exists i :: 0 <= i < |old(accessBreakpoints)| && StandsIn(old(accessBreakpoints)[i], bp) then []
                else [bp]
    {
      SuppressedMeans(accessBreakpoints, bp);
      var known := Find(bp.(width := Any, kind := ReadWrite));
      if !known {
        known := Find(bp.(kind := ReadWrite));
      }
      if !known {
        known := Find(bp.(width := Any));
      }
      if !known {
        known := Find(bp);
      }
      if !known {
        accessBreakpoints := accessBreakpoints + [bp];
      }
    }

    /** The panel's check box. */
    method SwitchAccessBreakpoint(i: nat)
      requires i < |accessBreakpoints|
      modifies this
      ensures accessBreakpoints == Switched(old(accessBreakpoints), i)
    {
      accessBreakpoints := accessBreakpoints[i := accessBreakpoints[i].(enabled := !accessBreakpoints[i].enabled)];
    }

    /** The panel's delete button. */
    method DeleteAccessBreakpoint(i: nat)
      requires i < |accessBreakpoints|
      modifies this
      ensures accessBreakpoints == Without(old(accessBreakpoints), i)
    {
      accessBreakpoints := accessBreakpoints[..i] + accessBreakpoints[i + 1..];
    }

    method Find(bp: AccessBreakpoint) returns (found: bool)
      ensures found == Has(accessBreakpoints, bp)
    {
      for i := 0 to |accessBreakpoints|
        invariant forall j :: 0 <= j < i ==> !accessBreakpoints[j].Equals(bp)
      {
        if accessBreakpoints[i].Equals(bp) {
          return true;
        }
      }
      return false;
    }

    /** The first enabled breakpoint that a read hits. */
    method GetEnabledReadBreakpoint(address: u32, w: AccessWidth) returns (r: Option<nat>)
      ensures r.Some? <==> ReadHits(accessBreakpoints, address, w)
      ensures r.Some? ==> r.value < |accessBreakpoints| && accessBreakpoints[r.value].HitsRead(address, w)
      ensures r.Some? ==> forall j :: 0 <= j < r.value ==> !accessBreakpoints[j].HitsRead(address, w)
      ensures r.Some? ==> FirstRead(accessBreakpoints, address, w) == Some(accessBreakpoints[r.value])
    {
      for i := 0 to |accessBreakpoints|
        invariant forall j :: 0 <= j < i ==> !accessBreakpoints[j].HitsRead(address, w)
      {
        if accessBreakpoints[i].HitsRead(address, w) {
          FirstReadIs(accessBreakpoints, i, address, w);
          return Some(i);
        }
      }
      return None;
    }

    /** The first enabled breakpoint that a write hits. */
    method GetEnabledWriteBreakpoint(address: u32, value: u32, w: AccessWidth) returns (r: Option<nat>)
      ensures r.Some? <==> WriteHits(accessBreakpoints, address, value, w)
      ensures r.Some? ==> r.value < |accessBreakpoints| && accessBreakpoints[r.value].HitsWrite(address, value, w)
      ensures r.Some? ==> forall j :: 0 <= j < r.value ==> !accessBreakpoints[j].HitsWrite(address, value, w)
      ensures r.Some? ==> FirstWrite(accessBreakpoints, address, value, w) == Some(accessBreakpoints[r.value])
    {
      for i := 0 to |accessBreakpoints|
        invariant forall j :: 0 <= j < i ==> !accessBreakpoints[j].HitsWrite(address, value, w)
      {
        if accessBreakpoints[i].HitsWrite(address, value, w) {
          FirstWriteIs(accessBreakpoints, i, address, value, w);
          return Some(i);
        }
      }
      return None;
    }
  }

  // ----- no hit is lost ------------------------------------------------------

  predicate AllEnabled(bps: seq<AccessBreakpoint>) {
    forall i :: 0 <= i < |bps| ==> bps[i].enabled
  }

  /** Everything in the database was added at some time. */
  lemma {:induction false} AddAllFrom(bps: seq<AccessBreakpoint>)
    ensures forall i :: 0 <= i < |AddAll([], bps)| ==> AddAll([], bps)[i] in bps
  {
    if bps != [] {
      AddAllFrom(bps[..|bps| - 1]);
    }
  }

  /** Everything that was added is in the database, or something that suppresses it is. */
  lemma {:induction false} AddAllCovers(bps: seq<AccessBreakpoint>, k: nat)
    requires k < |bps|
    ensures var db := AddAll([], bps); exists i :: 0 <= i < |db| && (db[i] == bps[k] || Suppresses(db[i], bps[k]))
    decreases |bps|
  {
    var init, last := bps[..|bps| - 1], bps[|bps| - 1];
    var before := AddAll([], init);
    assert before <= AddAll([], bps);
    if k < |init| {
      AddAllCovers(init, k);
      var i :| 0 <= i < |before| && (before[i] == init[k] || Suppresses(before[i], init[k]));
      assert AddAll([], bps)[i] == before[i];
    } else if exists i :: 0 <= i < |before| && Suppresses(before[i], last) {
      var i :| 0 <= i < |before| && Suppresses(before[i], last);
      assert AddAll([], bps)[i] == before[i];
    } else {
      assert AddAll([], bps)[|before|] == last;
    }
  }

  /** No breakpoint in the database makes a later one superfluous. */
  lemma {:induction false} NoneIsSuperfluous(bps: seq<AccessBreakpoint>, i: nat, j: nat)
    requires i < j < |AddAll([], bps)|
    ensures !Suppresses(AddAll([], bps)[i], AddAll([], bps)[j])
  {
    if bps != [] {
      var before := AddAll([], bps[..|bps| - 1]);
      if j < |before| {
        NoneIsSuperfluous(bps[..|bps| - 1], i, j);
      }
    }
  }

  /** After any sequence of additions, a read hits the database exactly if it hits
      one of the breakpoints that were added. */
  lemma ReadsAreKept(bps: seq<AccessBreakpoint>, address: u32, w: AccessWidth)
    requires AllEnabled(bps)
    ensures ReadHits(AddAll([], bps), address, w) <==> ReadHits(bps, address, w)
  {
    var db := AddAll([], bps);
    AddAllFrom(bps);
    if ReadHits(db, address, w) {
      var i :| 0 <= i < |db| && db[i].HitsRead(address, w);
      assert db[i] in bps;
    }
    if k :| 0 <= k < |bps| && bps[k].HitsRead(address, w) {
      AddAllCovers(bps, k);
      var i :| 0 <= i < |db| && (db[i] == bps[k] || Suppresses(db[i], bps[k]));
      assert db[i] in bps;
      assert db[i].HitsRead(address, w);
    }
  }

  /** The first breakpoint in a list that a read hits. */
  function FirstRead(db: seq<AccessBreakpoint>, address: u32, w: AccessWidth): (r: Option<AccessBreakpoint>)
    ensures r.Some? <==> ReadHits(db, address, w)
  {
    if db == [] then None
    else if db[0].HitsRead(address, w) then Some(db[0])
    else
      assert ReadHits(db[1..], address, w) ==> ReadHits(db, address, w) by {
        assert forall i :: 0 <= i < |db| - 1 ==> db[1..][i] == db[i + 1];
      }
      FirstRead(db[1..], address, w)
  }

  function FirstWrite(db: seq<AccessBreakpoint>, address: u32, value: u32,
                      w: AccessWidth): (r: Option<AccessBreakpoint>)
    ensures r.Some? <==> WriteHits(db, address, value, w)
  {
    if db == [] then None
    else if db[0].HitsWrite(address, value, w) then Some(db[0])
    else
      assert WriteHits(db[1..], address, value, w) ==> WriteHits(db, address, value, w) by {
        assert forall i :: 0 <= i < |db| - 1 ==> db[1..][i] == db[i + 1];
      }
      FirstWrite(db[1..], address, value, w)
  }

  lemma {:induction false} FirstReadIs(db: seq<AccessBreakpoint>, i: nat, address: u32, w: AccessWidth)
    requires i < |db| && db[i].HitsRead(address, w) && forall j :: 0 <= j < i ==> !db[j].HitsRead(address, w)
    ensures FirstRead(db, address, w) == Some(db[i])
  {
    if i > 0 {
      FirstReadIs(db[1..], i - 1, address, w);
    }
  }

  lemma {:induction false} FirstWriteIs(db: seq<AccessBreakpoint>, i: nat, address: u32, value: u32, w: AccessWidth)
    requires i < |db| && db[i].HitsWrite(address, value, w)
    requires forall j :: 0 <= j < i ==> !db[j].HitsWrite(address, value, w)
    ensures FirstWrite(db, address, value, w) == Some(db[i])
  {
    if i > 0 {
      FirstWriteIs(db[1..], i - 1, address, value, w);
    }
  }

  lemma {:induction false} FirstReadSnoc(db: seq<AccessBreakpoint>, bp: AccessBreakpoint, address: u32, w: AccessWidth)
    ensures FirstRead(db + [bp], address, w) ==
            if ReadHits(db, address, w) then FirstRead(db, address, w)
            else if bp.HitsRead(address, w) then Some(bp) else None
  {
    if db != [] {
      assert (db + [bp])[1..] == db[1..] + [bp];
      FirstReadSnoc(db[1..], bp, address, w);
    } else {
      assert (db + [bp])[1..] == [];
    }
  }

  lemma {:induction false} FirstWriteSnoc(db: seq<AccessBreakpoint>, bp: AccessBreakpoint, address: u32, value: u32,
                                          w: AccessWidth)
    ensures FirstWrite(db + [bp], address, value, w) ==
            if WriteHits(db, address, value, w) then FirstWrite(db, address, value, w)
            else if bp.HitsWrite(address, value, w) then Some(bp) else None
  {
    if db != [] {
      assert (db + [bp])[1..] == db[1..] + [bp];
      FirstWriteSnoc(db[1..], bp, address, value, w);
    } else {
      assert (db + [bp])[1..] == [];
    }
  }

  /** And it is the same breakpoint that is found first, so that what is to be done on the
      hit is the same as well. */
  lemma {:induction false} FirstReadIsKept(bps: seq<AccessBreakpoint>, address: u32, w: AccessWidth)
    requires AllEnabled(bps)
    ensures FirstRead(AddAll([], bps), address, w) == FirstRead(bps, address, w)
  {
    if bps != [] {
      var init, bp := bps[..|bps| - 1], bps[|bps| - 1];
      assert bps == init + [bp];
      FirstReadIsKept(init, address, w);
      ReadsAreKept(init, address, w);
      ReadsAreKept(bps, address, w);
      FirstReadSnoc(init, bp, address, w);
      FirstReadSnoc(AddAll([], init), bp, address, w);
    }
  }

  /** A suppressing breakpoint does not stand in for the suppressed one: it watches
      any width for one value, and the suppressed one watches for another, or for all. */
  predicate Misses(e: AccessBreakpoint, bp: AccessBreakpoint) {
    Suppresses(e, bp) && bp.kind.Writes() && e.width.Any? && e.data.Some? && bp.data != e.data
  }

  ghost predicate CoversWrites(e: AccessBreakpoint, bp: AccessBreakpoint) {
    forall address, value, w :: bp.HitsWrite(address, value, w) ==> e.HitsWrite(address, value, w)
  }

  /** Exactly in that case a write is lost. */
  lemma SuppressedIsCovered(e: AccessBreakpoint, bp: AccessBreakpoint)
    requires Suppresses(e, bp) && e.enabled && bp.enabled && bp.range.Valid()
    ensures CoversWrites(e, bp) <==> !Misses(e, bp)
  {
    if Misses(e, bp) {
      var value: u32 := if bp.data.Some? then bp.data.value else if e.data.value == 0 then 1 else 0;
      var w := if bp.width.Any? then Byte else bp.width;
      assert bp.HitsWrite(bp.range.min, value, w) && !e.HitsWrite(bp.range.min, value, w);
    }
  }

  ghost predicate WritesKept(bps: seq<AccessBreakpoint>) {
    forall address, value, w ::
      WriteHits(AddAll([], bps), address, value, w) <==> WriteHits(bps, address, value, w)
  }

  /** Without such a pair among them, no write is lost, in whatever order the
      breakpoints are added. */
  lemma WritesAreKept(bps: seq<AccessBreakpoint>)
    requires AllEnabled(bps) && forall i :: 0 <= i < |bps| ==> bps[i].range.Valid()
    requires forall i, j :: 0 <= i < |bps| && 0 <= j < |bps| ==> !Misses(bps[i], bps[j])
    ensures WritesKept(bps)
  {
    var db := AddAll([], bps);
    AddAllFrom(bps);
    forall address, value, w
      ensures WriteHits(db, address, value, w) <==> WriteHits(bps, address, value, w)
    {
      if WriteHits(db, address, value, w) {
        var i :| 0 <= i < |db| && db[i].HitsWrite(address, value, w);
        assert db[i] in bps;
      }
      if k :| 0 <= k < |bps| && bps[k].HitsWrite(address, value, w) {
        AddAllCovers(bps, k);
        var i :| 0 <= i < |db| && (db[i] == bps[k] || Suppresses(db[i], bps[k]));
        assert db[i] in bps;
        if db[i] != bps[k] {
          SuppressedIsCovered(db[i], bps[k]);
        }
        assert db[i].HitsWrite(address, value, w);
      }
    }
  }

  /** The same for writes. */
  lemma {:induction false} FirstWriteIsKept(bps: seq<AccessBreakpoint>, address: u32, value: u32, w: AccessWidth)
    requires AllEnabled(bps) && forall i :: 0 <= i < |bps| ==> bps[i].range.Valid()
    requires forall i, j :: 0 <= i < |bps| && 0 <= j < |bps| ==> !Misses(bps[i], bps[j])
    ensures FirstWrite(AddAll([], bps), address, value, w) == FirstWrite(bps, address, value, w)
  {
    if bps != [] {
      var init, bp := bps[..|bps| - 1], bps[|bps| - 1];
      assert bps == init + [bp];
      FirstWriteIsKept(init, address, value, w);
      WritesAreKept(init);
      WritesAreKept(bps);
      assert WriteHits(AddAll([], bps), address, value, w) <==> WriteHits(bps, address, value, w);
      assert WriteHits(AddAll([], init), address, value, w) <==> WriteHits(init, address, value, w);
      FirstWriteSnoc(init, bp, address, value, w);
      FirstWriteSnoc(AddAll([], init), bp, address, value, w);
    }
  }

  ghost predicate Over(bps: seq<AccessBreakpoint>, s: set<AccessBreakpoint>) {
    forall i :: 0 <= i < |bps| ==> bps[i] in s
  }

  /** For a stock of breakpoints: every sequence of additions from it keeps all
      writes exactly if no breakpoint of the stock misses another one. */
  lemma WritesKeptIff(s: set<AccessBreakpoint>)
    requires forall bp :: bp in s ==> bp.enabled && bp.range.Valid()
    ensures (forall bps :: Over(bps, s) ==> WritesKept(bps)) <==>
            (forall e, bp :: e in s && bp in s ==> !Misses(e, bp))
  {
    if forall e, bp :: e in s && bp in s ==> !Misses(e, bp) {
      forall bps | Over(bps, s) ensures WritesKept(bps) {
        WritesAreKept(bps);
      }
    } else {
      var e, bp :| e in s && bp in s && Misses(e, bp);
      MissedWrite(e, bp);
      assert Over([e, bp], s);
    }
  }

  lemma MissedWrite(e: AccessBreakpoint, bp: AccessBreakpoint)
    requires Misses(e, bp) && e.enabled && bp.enabled && bp.range.Valid()
    ensures !WritesKept([e, bp])
  {
    var bps := [e, bp];
    assert bps[..1] == [e] && bps[..1][..0] == [];
    assert AddAll([], bps[..1]) == [e];
    assert Suppresses([e][0], bp);
    assert AddAll([], bps) == [e];
    SuppressedIsCovered(e, bp);
    var address, value, w :| bp.HitsWrite(address, value, w) && !e.HitsWrite(address, value, w);
    assert bps[1].HitsWrite(address, value, w);
    assert WriteHits(bps, address, value, w) && !WriteHits([e], address, value, w);
  }

  /** In particular when breakpoints for any width watch for no particular value: then every
      write finds the same breakpoint first. */
  lemma NoValueKeepsWrites(bps: seq<AccessBreakpoint>)
    requires AllEnabled(bps) && forall i :: 0 <= i < |bps| ==> bps[i].range.Valid()
    requires forall i :: 0 <= i < |bps| ==> bps[i].width.Any? ==> bps[i].data.None?
    ensures WritesKept(bps)
    ensures forall address, value, w ::
              FirstWrite(AddAll([], bps), address, value, w) == FirstWrite(bps, address, value, w)
  {
    WritesAreKept(bps);
    forall address, value, w
      ensures FirstWrite(AddAll([], bps), address, value, w) == FirstWrite(bps, address, value, w)
    {
      FirstWriteIsKept(bps, address, value, w);
    }
  }

  // ----- switching off and deleting ------------------------------------------

  /** What can be done to the database: the panel also switches breakpoints and deletes them. */
  datatype Change = Add(bp: AccessBreakpoint) | Switch(index: nat) | Delete(index: nat)

  /** The database, and the additions that it turned away as superfluous. */
  datatype Book = Book(db: seq<AccessBreakpoint>, dropped: seq<AccessBreakpoint>)

  function Switched(db: seq<AccessBreakpoint>, i: nat): seq<AccessBreakpoint> {
    if i < |db| then db[i := db[i].(enabled := !db[i].enabled)] else db
  }

  function Without(db: seq<AccessBreakpoint>, i: nat): seq<AccessBreakpoint> {
    if i < |db| then db[..i] + db[i + 1..] else db
  }

  predicate OthersHitRead(db: seq<AccessBreakpoint>, i: nat, address: u32, w: AccessWidth) {
    exists j :: 0 <= j < |db| && j != i && db[j].HitsRead(address, w)
  }

  predicate OthersHitWrite(db: seq<AccessBreakpoint>, i: nat, address: u32, value: u32, w: AccessWidth) {
    exists j :: 0 <= j < |db| && j != i && db[j].HitsWrite(address, value, w)
  }

  /** After a deletion the others hit what they hit before, and nothing else is hit. */
  lemma DeletedHitsNothing(db: seq<AccessBreakpoint>, i: nat, address: u32, value: u32, w: AccessWidth)
    requires i < |db|
    ensures ReadHits(Without(db, i), address, w) <==> OthersHitRead(db, i, address, w)
    ensures WriteHits(Without(db, i), address, value, w) <==> OthersHitWrite(db, i, address, value, w)
  {
    var left := Without(db, i);
    forall j | 0 <= j < |db| && j != i ensures db[j] == left[if j < i then j else j - 1] {
    }
    forall k | 0 <= k < |left| ensures left[k] == db[if k < i then k else k + 1] {
    }
  }

  /** A breakpoint switched off hits as little as one deleted; one switched on hits besides what
      it would have hit; and switching twice changes nothing. */
  lemma SwitchedHits(db: seq<AccessBreakpoint>, i: nat, address: u32, value: u32, w: AccessWidth)
    requires i < |db|
    ensures ReadHits(Switched(db, i), address, w) <==>
            OthersHitRead(db, i, address, w) || (!db[i].enabled && db[i].(enabled := true).HitsRead(address, w))
    ensures WriteHits(Switched(db, i), address, value, w) <==>
            || OthersHitWrite(db, i, address, value, w)
            || (!db[i].enabled && db[i].(enabled := true).HitsWrite(address, value, w))
    ensures Switched(Switched(db, i), i) == db
  {
    var now := Switched(db, i);
    assert now[i] == db[i].(enabled := !db[i].enabled);
    forall j | 0 <= j < |db| && j != i ensures now[j] == db[j] {
    }
  }

  function Changed(b: Book, c: Change): Book {
    match c
    case Add(bp) => Book(Added(b.db, bp), if Suppressed(b.db, bp) then b.dropped + [bp] else b.dropped)
    case Switch(i) => b.(db := Switched(b.db, i))
    case Delete(i) => b.(db := Without(b.db, i))
  }

  function Run(b: Book, cs: seq<Change>): Book {
    if cs == [] then b else Changed(Run(b, cs[..|cs| - 1]), cs[|cs| - 1])
  }

  /** No read that a breakpoint would hit goes by unnoticed. */
  ghost predicate ReadsCovered(db: seq<AccessBreakpoint>, bp: AccessBreakpoint) {
    forall address, w :: bp.HitsRead(address, w) ==> ReadHits(db, address, w)
  }

  /** The same, looked up at its first address and where other breakpoints end. */
  predicate CoveredAtEnds(db: seq<AccessBreakpoint>, bp: AccessBreakpoint, w: AccessWidth) {
    && (bp.HitsRead(bp.range.min, w) ==> ReadHits(db, bp.range.min, w))
    && forall i :: 0 <= i < |db| && bp.HitsRead(db[i].range.max, w) ==> ReadHits(db, db[i].range.max, w)
  }

  /** Where a read goes by unnoticed, one does at the first address, or where a breakpoint ends. */
  lemma {:induction false} FirstUncovered(db: seq<AccessBreakpoint>, bp: AccessBreakpoint, address: u32, w: AccessWidth)
    requires bp.HitsRead(address, w) && !ReadHits(db, address, w)
    ensures !CoveredAtEnds(db, bp, w)
    decreases address
  {
    if address != bp.range.min {
      var before: u32 := address - 1;
      if ReadHits(db, before, w) {
        var i :| 0 <= i < |db| && db[i].HitsRead(before, w);
        assert !db[i].HitsRead(address, w);
        assert db[i].range.max == address;
      } else {
        FirstUncovered(db, bp, before, w);
      }
    }
  }

  lemma CoveredIffAtEnds(db: seq<AccessBreakpoint>, bp: AccessBreakpoint)
    ensures ReadsCovered(db, bp) <==> forall w :: CoveredAtEnds(db, bp, w)
  {
    if !ReadsCovered(db, bp) {
      var address, w :| bp.HitsRead(address, w) && !ReadHits(db, address, w);
      FirstUncovered(db, bp, address, w);
    }
  }

  /** After any additions, switches and deletions: no read is lost by what was turned away
      exactly if every breakpoint turned away is covered by what is switched on now, which can
      be looked up at finitely many addresses. */
  lemma ReadsKeptIff(cs: seq<Change>)
    ensures var b := Run(Book([], []), cs);
            (forall address, w :: ReadHits(b.db, address, w) <==> ReadHits(b.db + b.dropped, address, w)) <==>
            (forall k, w :: 0 <= k < |b.dropped| ==> CoveredAtEnds(b.db, b.dropped[k], w))
  {
    var b := Run(Book([], []), cs);
    var all := b.db + b.dropped;
    if forall address, w :: ReadHits(b.db, address, w) <==> ReadHits(all, address, w) {
      forall k, w | 0 <= k < |b.dropped| ensures CoveredAtEnds(b.db, b.dropped[k], w) {
        assert all[|b.db| + k] == b.dropped[k];
        assert ReadsCovered(b.db, b.dropped[k]);
        CoveredIffAtEnds(b.db, b.dropped[k]);
      }
    }
    if forall k, w :: 0 <= k < |b.dropped| ==> CoveredAtEnds(b.db, b.dropped[k], w) {
      forall address, w ensures ReadHits(b.db, address, w) <==> ReadHits(all, address, w) {
        if i :| 0 <= i < |b.db| && b.db[i].HitsRead(address, w) {
          assert all[i] == b.db[i];
        }
        if i :| 0 <= i < |all| && all[i].HitsRead(address, w) {
          if i >= |b.db| {
            CoveredIffAtEnds(b.db, b.dropped[i - |b.db|]);
          } else {
            assert b.db[i].HitsRead(address, w);
          }
        }
      }
    }
  }

  /** A breakpoint turned away is covered as long as one that suppresses it is switched on. */
  lemma SuppressorCovers(db: seq<AccessBreakpoint>, i: nat, bp: AccessBreakpoint)
    requires i < |db| && Suppresses(db[i], bp) && db[i].enabled
    ensures ReadsCovered(db, bp)
  {
    forall address, w | bp.HitsRead(address, w) ensures ReadHits(db, address, w) {
      assert db[i].HitsRead(address, w);
    }
  }

  /** But one that is switched off suppresses as well: the same breakpoint added again after it
      was switched off does nothing, and all its reads are lost. */
  lemma SwitchedOffIsLost(bp: AccessBreakpoint, address: u32, w: AccessWidth)
    requires bp.HitsRead(address, w)
    ensures var b := Run(Book([], []), [Add(bp), Switch(0), Add(bp)]);
            b.dropped == [bp] && !ReadHits(b.db, address, w)
  {
    var cs := [Add(bp), Switch(0), Add(bp)];
    assert cs[..2][..1] == [Add(bp)] && cs[..2] == [Add(bp), Switch(0)] && [Add(bp)][..0] == [];
    assert Run(Book([], []), [Add(bp)]) == Book([bp], []);
    var off := bp.(enabled := false);
    assert Run(Book([], []), cs[..2]) == Book([off], []);
    assert Suppresses([off][0], bp);
    assert Run(Book([], []), cs) == Book([off], [bp]);
  }
}
