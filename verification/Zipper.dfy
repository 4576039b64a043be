/** Undo history as a zipper of texts with bounded storage: what the undo and redo
    buffers mean, and why a redo always finds room. */
module Zipper {

  const RECORDS := 99   // records shared by undo and redo
  const CHARS := 999    // characters shared by undo and redo

  /** A text one step away, and the edit record that leads to it: it puts back
      `stored` characters in the place of `removed` ones. */
  datatype Entry = Entry(text: string, stored: nat, removed: nat)

  datatype History = History(past: seq<Entry>, present: string, future: seq<Entry>)

  function Stored(es: seq<Entry>): (n: nat) {
    if es == [] then 0 else es[0].stored + Stored(es[1..])
  }

  lemma {:induction false} StoredConcat(a: seq<Entry>, b: seq<Entry>)
    ensures Stored(a + b) == Stored(a) + Stored(b)
  {
    if a == [] {
      assert a + b == b;
    } else {
      assert (a + b)[1..] == a[1..] + b;
      StoredConcat(a[1..], b);
    }
  }

  // ----- the operations ------------------------------------------------------

  /** The oldest entries go until n more characters can be stored. */
  function Trim(es: seq<Entry>, n: nat): (r: seq<Entry>)
    requires n <= CHARS
    ensures Stored(r) + n <= CHARS && |r| <= |es|
  {
    if es != [] && Stored(es) + n > CHARS then Trim(es[1..], n) else es
  }

  /** An edit leads to `text`; taking it back needs `stored` characters. */
  function Record(z: History, text: string, stored: nat, removed: nat): History {
    var kept := if |z.past| == RECORDS then z.past[1..] else z.past;
    if stored > CHARS then History([], text, [])
    else History(Trim(kept, stored) + [Entry(z.present, stored, removed)], text, [])
  }

  function Undo(z: History): History {
    if z.past == [] then z
    else
      var e := z.past[|z.past| - 1];
      History(z.past[..|z.past| - 1], e.text, [Entry(z.present, e.removed, e.stored)] + z.future)
  }

  function Redo(z: History): History {
    if z.future == [] then z
    else
      var e := z.future[0];
      History(z.past + [Entry(z.present, e.removed, e.stored)], e.text, z.future[1..])
  }

  /** The characters that an undo takes out can be stored for the redo. */
  predicate UndoHasRoom(z: History) {
    z.past == [] ||
    var d := z.past[|z.past| - 1].removed;
    d == 0 || (Stored(z.past) + d < CHARS && Stored(z.past) + d <= CHARS - Stored(z.future))
  }

  /** The characters that a redo takes out can be stored for the undo. */
  predicate RedoHasRoom(z: History) {
    z.future == [] || Stored(z.past) + z.future[0].removed <= CHARS - Stored(z.future)
  }

  // ----- redo always has room ------------------------------------------------

  /** With a characters in use for undo, the whole future can be redone: at every
      step of the way the characters of both sides fit. */
  ghost predicate Redoable(a: int, future: seq<Entry>)
    decreases |future|
  {
    && a + Stored(future) <= CHARS
    && (future != [] ==>
          && a + future[0].removed + Stored(future) <= CHARS
          && Redoable(a + future[0].removed, future[1..]))
  }

  ghost predicate Sound(z: History) {
    |z.past| + |z.future| <= RECORDS && Redoable(Stored(z.past), z.future)
  }

  lemma PastSplit(past: seq<Entry>)
    requires past != []
    ensures Stored(past) == Stored(past[..|past| - 1]) + past[|past| - 1].stored
  {
    assert past == past[..|past| - 1] + [past[|past| - 1]];
    StoredConcat(past[..|past| - 1], [past[|past| - 1]]);
  }

  lemma RecordSound(z: History, text: string, stored: nat, removed: nat)
    requires Sound(z)
    ensures Sound(Record(z, text, stored, removed))
  {
    if stored <= CHARS {
      var kept := if |z.past| == RECORDS then z.past[1..] else z.past;
      StoredConcat(Trim(kept, stored), [Entry(z.present, stored, removed)]);
    }
  }

  lemma UndoSound(z: History)
    requires Sound(z) && UndoHasRoom(z)
    ensures Sound(Undo(z))
  {
    if z.past != [] {
      PastSplit(z.past);
      assert Undo(z).future[1..] == z.future;
    }
  }

  /** A redo finds room, and leaves the history in a state in which the next one does. */
  lemma RedoSound(z: History)
    requires Sound(z)
    ensures RedoHasRoom(z) && Sound(Redo(z))
  {
    if z.future != [] {
      var e := Entry(z.present, z.future[0].removed, z.future[0].stored);
      StoredConcat(z.past, [e]);
    }
  }

  // ----- runs ----------------------------------------------------------------

  datatype Op = Edit(text: string, stored: nat, removed: nat) | UndoOp | RedoOp

  function Step(z: History, op: Op): History {
    match op
    case Edit(text, stored, removed) => Record(z, text, stored, removed)
    case UndoOp => Undo(z)
    case RedoOp => Redo(z)
  }

  function Run(z: History, ops: seq<Op>): History
    decreases |ops|
  {
    if ops == [] then z else Run(Step(z, ops[0]), ops[1..])
  }

  /** No undo in the run has to drop the characters needed for its redo. */
  predicate Roomy(z: History, ops: seq<Op>)
    decreases |ops|
  {
    ops == [] || ((ops[0].UndoOp? ==> UndoHasRoom(z)) && Roomy(Step(z, ops[0]), ops[1..]))
  }

  /** In such a run every redo has room, and the buffers never overflow. */
  lemma {:induction false} RunsAreSound(z: History, ops: seq<Op>)
    requires Sound(z) && Roomy(z, ops)
    ensures Sound(Run(z, ops)) && RedoHasRoom(Run(z, ops))
    decreases |ops|
  {
    if ops == [] {
      RedoSound(z);
    } else {
      match ops[0] {
        case Edit(text, stored, removed) => RecordSound(z, text, stored, removed);
        case UndoOp => UndoSound(z);
        case RedoOp => RedoSound(z);
      }
      RunsAreSound(Step(z, ops[0]), ops[1..]);
    }
  }

  /** Room can run out: 600 characters put in, then 500, and one undo. */
  lemma {:induction false} RoomCanRunOut(a: string, b: string)
    ensures var z := Run(History([], "", []), [Edit(a, 0, 600), Edit(b, 0, 500), UndoOp]);
            z.past != [] && z.present == a && !UndoHasRoom(z)
  {
    var z0 := History([], "", []);
    var z1 := History([Entry("", 0, 600)], a, []);
    var z2 := History([Entry("", 0, 600), Entry(a, 0, 500)], b, []);
    var z3 := History([Entry("", 0, 600)], a, [Entry(b, 500, 0)]);
    var ops := [Edit(a, 0, 600), Edit(b, 0, 500), UndoOp];
    assert Step(z0, ops[0]) == z1;
    assert Step(z1, ops[1]) == z2 by {
      assert Stored(z1.past) == 0;
    }
    assert Step(z2, ops[2]) == z3 by {
      assert z2.past[..1] == z1.past;
    }
    assert ops[1..][1..] == [UndoOp] && ops[1..][1..][1..] == [];
    assert Run(z2, [UndoOp]) == Run(z3, []);
    assert Run(z1, ops[1..]) == Run(z2, ops[1..][1..]);
    assert Stored(z3.past) == 0 && Stored(z3.future) == 500;
  }

  /** A redo takes back an undo, and an undo takes back a redo. */
  lemma UndoRedoInverse(z: History)
    ensures z.past != [] ==> Redo(Undo(z)) == z
    ensures z.future != [] ==> Undo(Redo(z)) == z
  {
    if z.past != [] {
      assert Undo(z).future[1..] == z.future;
      assert z.past[..|z.past| - 1] + [z.past[|z.past| - 1]] == z.past;
    }
    if z.future != [] {
      assert Redo(z).past[..|z.past|] == z.past;
      assert [z.future[0]] + z.future[1..] == z.future;
    }
  }

  function Times(op: Op, n: nat): seq<Op> {
    if n == 0 then [] else [op] + Times(op, n - 1)
  }

  lemma {:induction false} RunConcat(z: History, a: seq<Op>, b: seq<Op>)
    ensures Run(z, a + b) == Run(Run(z, a), b)
    decreases |a|
  {
    if a == [] {
      assert a + b == b;
    } else {
      assert (a + b)[1..] == a[1..] + b;
      RunConcat(Step(z, a[0]), a[1..], b);
    }
  }

  /** n undos show the text of n edits ago, and n redos lead all the way back. */
  lemma {:induction false} UndoManyRedoMany(z: History, n: nat)
    requires 0 < n <= |z.past|
    ensures Run(z, Times(UndoOp, n)).present == z.past[|z.past| - n].text
    ensures Run(z, Times(UndoOp, n) + Times(RedoOp, n)) == z
    decreases n
  {
    var z1 := Undo(z);
    assert Times(UndoOp, n)[1..] == Times(UndoOp, n - 1);
    RunConcat(z, Times(UndoOp, n), Times(RedoOp, n));
    if n == 1 {
      assert Run(z, Times(UndoOp, 1)) == z1;
      assert Times(RedoOp, 1)[1..] == [];
      assert Run(z1, Times(RedoOp, 1)) == Redo(z1);
    } else {
      UndoManyRedoMany(z1, n - 1);
      RunConcat(z1, Times(UndoOp, n - 1), Times(RedoOp, n - 1));
      TimesSnoc(RedoOp, n - 1);
      RunConcat(Run(z1, Times(UndoOp, n - 1)), Times(RedoOp, n - 1), [RedoOp]);
      assert Run(z1, [RedoOp]) == Redo(z1);
    }
    UndoRedoInverse(z);
  }

  lemma {:induction false} TimesSnoc(op: Op, n: nat)
    ensures Times(op, n + 1) == Times(op, n) + [op]
  {
    if n != 0 {
      TimesSnoc(op, n - 1);
    }
  }

  // ----- the unbounded zipper ------------------------------------------------

  datatype Ideal = Ideal(past: seq<string>, present: string, future: seq<string>)

  function IdealStep(i: Ideal, op: Op): Ideal {
    match op
    case Edit(text, _, _) => Ideal(i.past + [i.present], text, [])
    case UndoOp =>
      if i.past == [] then i
      else Ideal(i.past[..|i.past| - 1], i.past[|i.past| - 1], [i.present] + i.future)
    case RedoOp =>
      if i.future == [] then i
      else Ideal(i.past + [i.present], i.future[0], i.future[1..])
  }

  function IdealRun(i: Ideal, ops: seq<Op>): Ideal
    decreases |ops|
  {
    if ops == [] then i else IdealRun(IdealStep(i, ops[0]), ops[1..])
  }

  /** The texts of es are the last ones of `texts`. */
  ghost predicate Suffix(es: seq<Entry>, texts: seq<string>) {
    |es| <= |texts| && forall k :: 0 <= k < |es| ==> es[k].text == texts[|texts| - |es| + k]
  }

  /** The history shows the same texts as the unbounded zipper, except that the
      oldest may be missing. */
  ghost predicate Shows(z: History, i: Ideal) {
    && z.present == i.present
    && Suffix(z.past, i.past)
    && |z.future| == |i.future|
    && (forall k :: 0 <= k < |z.future| ==> z.future[k].text == i.future[k])
  }

  lemma {:induction false} TrimIsSuffix(es: seq<Entry>, n: nat)
    requires n <= CHARS
    ensures var r := Trim(es, n); r == es[|es| - |r|..]
  {
    if es != [] && Stored(es) + n > CHARS {
      TrimIsSuffix(es[1..], n);
    }
  }

  /** Only as many entries are dropped as necessary. */
  lemma {:induction false} TrimIsLeast(es: seq<Entry>, n: nat, k: nat)
    requires n <= CHARS && k <= |es| && Stored(es[k..]) + n <= CHARS
    ensures |es| - |Trim(es, n)| <= k
  {
    if es != [] && Stored(es) + n > CHARS {
      assert k != 0 && es[1..][k - 1..] == es[k..] by { assert es[0..] == es; }
      TrimIsLeast(es[1..], n, k - 1);
    }
  }

  /** An undo finds an entry whenever the unbounded zipper has one. */
  predicate NeverShort(z: History, i: Ideal, ops: seq<Op>)
    decreases |ops|
  {
    ops == [] ||
    ((ops[0].UndoOp? && z.past == [] ==> i.past == []) &&
     NeverShort(Step(z, ops[0]), IdealStep(i, ops[0]), ops[1..]))
  }

  lemma StepShows(z: History, i: Ideal, op: Op)
    requires Shows(z, i) && (op.UndoOp? && z.past == [] ==> i.past == [])
    ensures Shows(Step(z, op), IdealStep(i, op))
  {
    if op.Edit? {
      EditShows(z, i, op);
    }
  }

  lemma EditShows(z: History, i: Ideal, op: Op)
    requires Shows(z, i) && op.Edit?
    ensures Shows(Step(z, op), IdealStep(i, op))
  {
    hide Trim, Stored, Suffix;
    var kept := if |z.past| == RECORDS then z.past[1..] else z.past;
    KeptShow(z.past, i.past);
    if op.stored <= CHARS {
      TrimShows(kept, op.stored, i.past);
      SuffixAppend(Trim(kept, op.stored), i.past, Entry(z.present, op.stored, op.removed));
    } else {
      EmptySuffix(i.past + [i.present]);
    }
  }

  lemma KeptShow(es: seq<Entry>, texts: seq<string>)
    requires Suffix(es, texts)
    ensures Suffix(if |es| == RECORDS then es[1..] else es, texts)
  {
  }

  lemma TrimShows(es: seq<Entry>, n: nat, texts: seq<string>)
    requires n <= CHARS && Suffix(es, texts)
    ensures Suffix(Trim(es, n), texts)
  {
    hide Trim, Suffix;
    TrimIsSuffix(es, n);
    SuffixTail(es, texts, Trim(es, n));
  }

  lemma EmptySuffix(texts: seq<string>)
    ensures Suffix([], texts)
  {
  }

  lemma SuffixTail(es: seq<Entry>, texts: seq<string>, r: seq<Entry>)
    requires Suffix(es, texts) && |r| <= |es| && r == es[|es| - |r|..]
    ensures Suffix(r, texts)
  {
  }

  lemma SuffixAppend(es: seq<Entry>, texts: seq<string>, e: Entry)
    requires Suffix(es, texts)
    ensures Suffix(es + [e], texts + [e.text])
  {
  }

  /** Any mix of edits, undos and redos shows the text that the unbounded zipper
      shows, as long as no undo reaches an entry that had to be dropped. */
  lemma {:induction false} RunShows(z: History, i: Ideal, ops: seq<Op>)
    requires Shows(z, i) && NeverShort(z, i, ops)
    ensures Shows(Run(z, ops), IdealRun(i, ops))
    decreases |ops|
  {
    if ops != [] {
      StepShows(z, i, ops[0]);
      RunShows(Step(z, ops[0]), IdealStep(i, ops[0]), ops[1..]);
    }
  }

  // ----- when nothing is dropped ---------------------------------------------

  function EditCount(ops: seq<Op>): nat {
    if ops == [] then 0 else (if ops[0].Edit? then 1 else 0) + EditCount(ops[1..])
  }

  function EditStored(ops: seq<Op>): nat {
    if ops == [] then 0 else (if ops[0].Edit? then ops[0].stored else 0) + EditStored(ops[1..])
  }

  /** What the entries of the future store once they are in the past again. */
  function Removed(es: seq<Entry>): nat {
    if es == [] then 0 else es[0].removed + Removed(es[1..])
  }

  /** What a caller can check beforehand: up to 99 edits that store up to 999 characters in all.
      Then, with any undos and redos in between, nothing is ever dropped, and the history shows
      all texts of the unbounded zipper. */
  lemma {:induction false} FewEditsKeepAll(z: History, i: Ideal, ops: seq<Op>)
    requires Shows(z, i) && |z.past| == |i.past|
    requires |z.past| + |z.future| + EditCount(ops) <= 99
    requires Stored(z.past) + Removed(z.future) + EditStored(ops) <= 999
    ensures NeverShort(z, i, ops) && Shows(Run(z, ops), IdealRun(i, ops))
    ensures |Run(z, ops).past| == |IdealRun(i, ops).past|
    decreases |ops|
  {
    if ops != [] {
      StepShows(z, i, ops[0]);
      match ops[0] {
        case Edit(_, stored, _) =>
          RecordKeeps(z, ops[0]);
        case UndoOp =>
          if z.past != [] {
            PastSplit(z.past);
            assert Undo(z).future[1..] == z.future;
          }
        case RedoOp =>
          if z.future != [] {
            StoredConcat(z.past, [Entry(z.present, z.future[0].removed, z.future[0].stored)]);
          }
      }
      FewEditsKeepAll(Step(z, ops[0]), IdealStep(i, ops[0]), ops[1..]);
    }
  }

  lemma RecordKeeps(z: History, op: Op)
    requires op.Edit? && |z.past| < 99 && Stored(z.past) + op.stored <= 999
    ensures Step(z, op) == History(z.past + [Entry(z.present, op.stored, op.removed)], op.text, [])
    ensures Stored(Step(z, op).past) == Stored(z.past) + op.stored
  {
    StoredConcat(z.past, [Entry(z.present, op.stored, op.removed)]);
  }

  predicate OnlyEdits(ops: seq<Op>) {
    forall k :: 0 <= k < |ops| ==> ops[k].Edit?
  }

  /** So up to 99 edits can all be taken back. */
  lemma AllTakenBack(text: string, ops: seq<Op>)
    requires ops != [] && OnlyEdits(ops) && |ops| <= 99 && EditStored(ops) <= 999
    ensures Run(History([], text, []), ops + Times(UndoOp, |ops|)).present == text
  {
    var z, i := History([], text, []), Ideal([], text, []);
    CountIs(ops);
    FewEditsKeepAll(z, i, ops);
    IdealPast(i, ops);
    RunConcat(z, ops, Times(UndoOp, |ops|));
    UndoManyRedoMany(Run(z, ops), |ops|);
  }

  lemma {:induction false} CountIs(ops: seq<Op>)
    requires OnlyEdits(ops)
    ensures EditCount(ops) == |ops|
  {
    if ops != [] {
      CountIs(ops[1..]);
    }
  }

  lemma {:induction false} IdealPast(i: Ideal, ops: seq<Op>)
    requires OnlyEdits(ops)
    ensures |IdealRun(i, ops).past| == |i.past| + |ops|
    ensures ops != [] || i.past != [] ==> IdealRun(i, ops).past[0] == (i.past + [i.present])[0]
    decreases |ops|
  {
    if ops != [] {
      IdealPast(IdealStep(i, ops[0]), ops[1..]);
    }
  }

  /** And no more than 99: of edits that store nothing, the last 99 are kept. */
  lemma {:induction false} KeptEdits(z: History, ops: seq<Op>)
    requires OnlyEdits(ops) && EditStored(ops) == 0 && Stored(z.past) == 0 && |z.past| <= 99
    ensures |Run(z, ops).past| == if |z.past| + |ops| <= 99 then |z.past| + |ops| else 99
    decreases |ops|
  {
    if ops != [] {
      var kept := if |z.past| == RECORDS then z.past[1..] else z.past;
      StoredConcat(kept, [Entry(z.present, 0, ops[0].removed)]);
      assert Trim(kept, 0) == kept;
      KeptEdits(Step(z, ops[0]), ops[1..]);
    }
  }

  /** A deletion of up to 999 characters can be taken back, a larger one forgets the whole past. */
  lemma BigEditForgets(z: History, text: string, stored: nat, removed: nat)
    ensures Record(z, text, stored, removed).past != [] <==> stored <= 999
  {
  }
}
