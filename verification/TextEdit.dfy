/** The text editor's undo and redo records, which grow towards each other in one
    record array and one character array. */
module TextEdit {
  import opened Zipper

  const NONE := -1

  datatype UndoRecord = UndoRecord(pos: int, insertLength: int, deleteLength: int, charStorage: int)

  // ----- what the buffers mean -----------------------------------------------

  /** Replacing the n characters at pos by `put`. */
  function Replace(text: string, pos: int, n: int, put: string): string
    requires 0 <= pos && 0 <= n && pos + n <= |text|
  {
    text[..pos] + put + text[pos + n..]
  }

  /** Record r leads from text `from` to entry e; its characters are stored at base. */
  ghost predicate Describes(r: UndoRecord, chars: seq<char>, e: Entry, from: string, base: int) {
    && r.insertLength == e.stored && r.deleteLength == e.removed
    && r.charStorage == (if e.stored == 0 then -1 else base)
    && 0 <= base && base + e.stored <= |chars|
    && 0 <= r.pos && r.pos + e.removed <= |from|
    && e.text == Replace(from, r.pos, e.removed, chars[base..base + e.stored])
  }

  /** The text that the i-th edit of the past led to. */
  function After(past: seq<Entry>, present: string, i: int): string
    requires 0 <= i < |past|
  {
    if i + 1 < |past| then past[i + 1].text else present
  }

  /** The text from which the i-th redo starts. */
  function Before(future: seq<Entry>, present: string, i: int): string
    requires 0 <= i < |future|
  {
    if i == 0 then present else future[i - 1].text
  }

  ghost predicate PastEntry(recs: seq<UndoRecord>, chars: seq<char>, past: seq<Entry>, present: string, i: int)
    requires 0 <= i < |past| <= |recs|
  {
    Describes(recs[i], chars, past[i], After(past, present, i), Stored(past[..i]))
  }

  /** The records from 0 on are the past, with their characters from 0 on. */
  ghost predicate HoldsPast(recs: seq<UndoRecord>, chars: seq<char>, past: seq<Entry>, present: string) {
    && |recs| == RECORDS && |chars| == CHARS && |past| <= RECORDS && Stored(past) <= CHARS
    && forall i :: 0 <= i < |past| ==> PastEntry(recs, chars, past, present, i)
  }

  ghost predicate FutureEntry(recs: seq<UndoRecord>, chars: seq<char>, future: seq<Entry>, present: string, i: int)
    requires 0 <= i < |future| <= RECORDS == |recs|
  {
    Describes(recs[RECORDS - |future| + i], chars, future[i], Before(future, present, i), CHARS - Stored(future[i..]))
  }

  /** The records up to the last are the future, with their characters up to the last. */
  ghost predicate HoldsFuture(recs: seq<UndoRecord>, chars: seq<char>, future: seq<Entry>, present: string) {
    && |recs| == RECORDS && |chars| == CHARS && |future| <= RECORDS && Stored(future) <= CHARS
    && forall i :: 0 <= i < |future| ==> FutureEntry(recs, chars, future, present, i)
  }

  // ----- how the buffers change ----------------------------------------------

  ghost predicate SameBelow<T>(a: seq<T>, b: seq<T>, n: int) {
    |a| == |b| && n <= |a| && forall i :: 0 <= i < n ==> b[i] == a[i]
  }

  ghost predicate SameFrom<T>(a: seq<T>, b: seq<T>, n: int) {
    |a| == |b| && 0 <= n && forall i :: n <= i < |a| ==> b[i] == a[i]
  }

  lemma {:induction false} StoredPrefix(es: seq<Entry>, i: int)
    requires 0 <= i <= |es|
    ensures Stored(es[..i]) + Stored(es[i..]) == Stored(es)
  {
    assert es == es[..i] + es[i..];
    StoredConcat(es[..i], es[i..]);
  }

  /** Where the characters of the i-th entry of the past lie. */
  lemma PastRange(past: seq<Entry>, i: int)
    requires 0 <= i < |past|
    ensures Stored(past[..i]) + past[i].stored <= Stored(past)
    ensures Stored(past[..i + 1]) == Stored(past[..i]) + past[i].stored
  {
    StoredPrefix(past, i);
    assert past[i..][0] == past[i];
    StoredPrefix(past, i + 1);
    assert past[i..][1..] == past[i + 1..];
  }

  lemma DescribesFrame(r: UndoRecord, chars: seq<char>, chars': seq<char>, e: Entry, from: string, base: int)
    requires Describes(r, chars, e, from, base) && |chars'| == |chars|
    requires forall i :: base <= i < base + e.stored ==> chars'[i] == chars[i]
    ensures Describes(r, chars', e, from, base)
  {
    assert chars'[base..base + e.stored] == chars[base..base + e.stored];
  }

  lemma PastFrame(recs: seq<UndoRecord>, chars: seq<char>, recs': seq<UndoRecord>, chars': seq<char>,
                  past: seq<Entry>, present: string)
    requires HoldsPast(recs, chars, past, present)
    requires SameBelow(recs, recs', |past|) && SameBelow(chars, chars', Stored(past))
    ensures HoldsPast(recs', chars', past, present)
  {
    forall i | 0 <= i < |past| ensures PastEntry(recs', chars', past, present, i) {
      assert PastEntry(recs, chars, past, present, i);
      PastRange(past, i);
      DescribesFrame(recs[i], chars, chars', past[i], After(past, present, i), Stored(past[..i]));
    }
  }

  lemma FutureRange(future: seq<Entry>, i: int)
    requires 0 <= i < |future|
    ensures Stored(future[i..]) == future[i].stored + Stored(future[i + 1..]) <= Stored(future)
  {
    StoredPrefix(future, i);
    assert future[i..][0] == future[i];
    assert future[i..][1..] == future[i + 1..];
  }

  lemma FutureFrame(recs: seq<UndoRecord>, chars: seq<char>, recs': seq<UndoRecord>, chars': seq<char>,
                    future: seq<Entry>, present: string)
    requires HoldsFuture(recs, chars, future, present)
    requires SameFrom(recs, recs', RECORDS - |future|) && SameFrom(chars, chars', CHARS - Stored(future))
    ensures HoldsFuture(recs', chars', future, present)
  {
    forall i | 0 <= i < |future| ensures FutureEntry(recs', chars', future, present, i) {
      assert FutureEntry(recs, chars, future, present, i);
      FutureRange(future, i);
      DescribesFrame(recs[RECORDS - |future| + i], chars, chars', future[i], Before(future, present, i),
                     CHARS - Stored(future[i..]));
    }
  }

  /** The last undo record away, and what it says. */
  lemma PastPop(recs: seq<UndoRecord>, chars: seq<char>, past: seq<Entry>, present: string)
    requires HoldsPast(recs, chars, past, present) && past != []
    ensures var n := |past| - 1;
            && HoldsPast(recs, chars, past[..n], past[n].text)
            && Stored(past) == Stored(past[..n]) + past[n].stored
            && Describes(recs[n], chars, past[n], present, Stored(past[..n]))
  {
    hide Describes, Stored;
    var n := |past| - 1;
    PastSplit(past);
    assert PastEntry(recs, chars, past, present, n);
    forall i | 0 <= i < n ensures PastEntry(recs, chars, past[..n], past[n].text, i) {
      assert PastEntry(recs, chars, past, present, i);
      PastInit(recs, chars, past, present, i);
    }
  }

  lemma PastInit(recs: seq<UndoRecord>, chars: seq<char>, past: seq<Entry>, present: string, i: int)
    requires 0 <= i < |past| - 1 && |past| <= |recs| && PastEntry(recs, chars, past, present, i)
    ensures PastEntry(recs, chars, past[..|past| - 1], past[|past| - 1].text, i)
  {
    hide Describes, Stored;
    assert past[..|past| - 1][..i] == past[..i];
  }

  lemma PastPush(recs: seq<UndoRecord>, chars: seq<char>, past: seq<Entry>, e: Entry, present: string)
    requires HoldsPast(recs, chars, past, e.text) && |past| < RECORDS
    requires Describes(recs[|past|], chars, e, present, Stored(past))
    ensures HoldsPast(recs, chars, past + [e], present) && Stored(past + [e]) == Stored(past) + e.stored
  {
    StoredConcat(past, [e]);
    forall i | 0 <= i < |past| + 1 ensures PastEntry(recs, chars, past + [e], present, i) {
      assert i < |past| ==> PastEntry(recs, chars, past, e.text, i);
      assert (past + [e])[..i] == past[..i];
      assert past[..|past|] == past;
    }
  }

  lemma FuturePop(recs: seq<UndoRecord>, chars: seq<char>, future: seq<Entry>, present: string)
    requires HoldsFuture(recs, chars, future, present) && future != []
    ensures HoldsFuture(recs, chars, future[1..], future[0].text)
    ensures Describes(recs[RECORDS - |future|], chars, future[0], present, CHARS - Stored(future))
  {
    hide Describes, Stored;
    FutureFirst(recs, chars, future, present);
    forall i | 0 <= i < |future| - 1 ensures FutureEntry(recs, chars, future[1..], future[0].text, i) {
      assert FutureEntry(recs, chars, future, present, i + 1);
      FutureShift(recs, chars, future, present, i);
    }
  }

  lemma FutureFirst(recs: seq<UndoRecord>, chars: seq<char>, future: seq<Entry>, present: string)
    requires HoldsFuture(recs, chars, future, present) && future != []
    ensures Describes(recs[RECORDS - |future|], chars, future[0], present, CHARS - Stored(future))
    ensures Stored(future[1..]) <= CHARS
  {
    hide Describes, Stored;
    FutureRange(future, 0);
    assert future[0..] == future;
    assert FutureEntry(recs, chars, future, present, 0);
  }

  lemma FutureShift(recs: seq<UndoRecord>, chars: seq<char>, future: seq<Entry>, present: string, i: int)
    requires 0 <= i < |future| - 1 && |future| <= RECORDS == |recs| && FutureEntry(recs, chars, future, present, i + 1)
    ensures FutureEntry(recs, chars, future[1..], future[0].text, i)
  {
    hide Describes, Stored;
    assert future[1..][i..] == future[i + 1..];
  }

  lemma FuturePush(recs: seq<UndoRecord>, chars: seq<char>, future: seq<Entry>, e: Entry, present: string)
    requires HoldsFuture(recs, chars, future, e.text) && |future| < RECORDS && Stored(future) + e.stored <= CHARS
    requires Describes(recs[RECORDS - |future| - 1], chars, e, present, CHARS - Stored(future) - e.stored)
    ensures HoldsFuture(recs, chars, [e] + future, present)
    ensures Stored([e] + future) == e.stored + Stored(future)
  {
    hide Describes, Stored;
    StoredConcat([e], future);
    StoredOne(e);
    assert ([e] + future)[0..] == [e] + future;
    assert FutureEntry(recs, chars, [e] + future, present, 0);
    forall i | 0 < i < |future| + 1 ensures FutureEntry(recs, chars, [e] + future, present, i) {
      assert FutureEntry(recs, chars, future, e.text, i - 1);
      FutureUnshift(recs, chars, future, e, present, i);
    }
  }

  lemma StoredOne(e: Entry)
    ensures Stored([e]) == e.stored
  {
  }

  lemma FutureUnshift(recs: seq<UndoRecord>, chars: seq<char>, future: seq<Entry>, e: Entry, present: string, i: int)
    requires 0 < i <= |future| < RECORDS == |recs| && FutureEntry(recs, chars, future, e.text, i - 1)
    ensures FutureEntry(recs, chars, [e] + future, present, i)
  {
    hide Describes, Stored;
    assert ([e] + future)[i..] == future[i - 1..];
  }

  /** A record whose characters moved by n. */
  function Moved(r: UndoRecord, n: int): UndoRecord {
    if r.charStorage >= 0 then r.(charStorage := r.charStorage + n) else r
  }

  lemma DescribesMoved(r: UndoRecord, chars: seq<char>, chars': seq<char>, e: Entry, from: string, base: int, n: int)
    requires Describes(r, chars, e, from, base) && |chars'| == |chars|
    requires 0 <= base + n && base + n + e.stored <= |chars|
    requires forall i :: base <= i < base + e.stored ==> chars'[i + n] == chars[i]
    ensures Describes(Moved(r, n), chars', e, from, base + n)
  {
    assert chars'[base + n..base + n + e.stored] == chars[base..base + e.stored];
  }

  /** The oldest undo record is gone, the others have moved down. */
  lemma {:induction false} PastDiscard(recs: seq<UndoRecord>, chars: seq<char>, past: seq<Entry>, present: string)
    requires HoldsPast(recs, chars, past, present) && past != []
    ensures past[0].stored <= Stored(past) && Stored(past[1..]) == Stored(past) - past[0].stored
    ensures var n: int, m := past[0].stored, |past|;
            HoldsPast(Slid(MovedIn(recs, 0, m, -n), 0, 1, m - 1), Slid(chars, 0, n, Stored(past) - n),
                      past[1..], present)
  {
    hide Describes, Replace, Slid, MovedIn, Moved;
    var n: int, m := past[0].stored, |past|;
    var recs', chars' := Slid(MovedIn(recs, 0, m, -n), 0, 1, m - 1), Slid(chars, 0, n, Stored(past) - n);
    forall i | 0 <= i < m - 1 ensures PastEntry(recs', chars', past[1..], present, i) {
      assert PastEntry(recs, chars, past, present, i + 1);
      PastRange(past, i + 1);
      assert past[..i + 1][1..] == past[1..][..i];
      DescribesMoved(recs[i + 1], chars, chars', past[i + 1], After(past, present, i + 1), Stored(past[..i + 1]), -n);
    }
  }

  /** The oldest redo record is gone, the others have moved up. */
  lemma {:induction false} FutureDiscard(recs: seq<UndoRecord>, chars: seq<char>, future: seq<Entry>, present: string)
    requires HoldsFuture(recs, chars, future, present) && future != []
    ensures future[|future| - 1].stored <= Stored(future)
    ensures Stored(future[..|future| - 1]) == Stored(future) - future[|future| - 1].stored
    ensures var n, rp, rcp := future[|future| - 1].stored, RECORDS - |future|, CHARS - Stored(future);
            HoldsFuture(Slid(MovedIn(recs, rp, RECORDS - 1, n), rp + 1, rp, RECORDS - rp - 1),
                        Slid(chars, rcp + n, rcp, CHARS - rcp - n), future[..|future| - 1], present)
  {
    hide Describes, Replace, Stored, Slid, MovedIn, Moved;
    var m := |future| - 1;
    PastSplit(future);
    var n, rp, rcp := future[m].stored, RECORDS - |future|, CHARS - Stored(future);
    var recs' := Slid(MovedIn(recs, rp, RECORDS - 1, n), rp + 1, rp, RECORDS - rp - 1);
    var chars' := Slid(chars, rcp + n, rcp, CHARS - rcp - n);
    forall i | 0 <= i < m ensures FutureEntry(recs', chars', future[..m], present, i) {
      assert FutureEntry(recs, chars, future, present, i);
      FutureRange(future, i);
      FutureInit(future, i);
      DescribesMoved(recs[RECORDS - |future| + i], chars, chars', future[i], Before(future, present, i),
                     CHARS - Stored(future[i..]), n);
    }
  }

  lemma FutureInit(future: seq<Entry>, i: int)
    requires 0 <= i < |future| - 1
    ensures var m := |future| - 1;
            && Stored(future[i..]) == Stored(future[..m][i..]) + future[m].stored
            && future[i].stored <= Stored(future[..m][i..])
  {
    var m := |future| - 1;
    assert future[i..] == future[..m][i..] + [future[m]];
    StoredConcat(future[..m][i..], [future[m]]);
    FutureRange(future[..m], i);
  }

  lemma PastFirst(recs: seq<UndoRecord>, chars: seq<char>, past: seq<Entry>, present: string)
    requires HoldsPast(recs, chars, past, present) && past != []
    ensures |past| <= RECORDS == |recs| && recs[0].insertLength == past[0].stored <= Stored(past) <= CHARS
    ensures recs[0].charStorage == if past[0].stored == 0 then -1 else 0
    ensures Stored(past[1..]) == Stored(past) - past[0].stored
  {
    assert PastEntry(recs, chars, past, present, 0);
  }

  lemma FutureLast(recs: seq<UndoRecord>, chars: seq<char>, future: seq<Entry>, present: string)
    requires HoldsFuture(recs, chars, future, present) && future != []
    ensures var e := future[|future| - 1];
            && |future| <= RECORDS == |recs| && recs[RECORDS - 1].insertLength == e.stored <= Stored(future) <= CHARS
            && recs[RECORDS - 1].charStorage == if e.stored == 0 then -1 else CHARS - e.stored
  {
    var m := |future| - 1;
    assert FutureEntry(recs, chars, future, present, m);
    FutureRange(future, m);
    assert future[m..] == [future[m]];
    PastSplit(future);
  }

  /** A record of a replacement in `text` that led to `after`. */
  lemma RecordDescribes(r: UndoRecord, chars: seq<char>, text: string, after: string, base: int)
    requires 0 <= r.pos && 0 <= r.insertLength && 0 <= r.deleteLength
    requires r.pos + r.insertLength <= |text| && r.pos + r.deleteLength <= |after|
    requires text == Replace(after, r.pos, r.deleteLength, text[r.pos..r.pos + r.insertLength])
    requires r.charStorage == (if r.insertLength == 0 then -1 else base)
    requires 0 <= base && base + r.insertLength <= |chars|
    requires forall i :: base <= i < base + r.insertLength ==> chars[i] == text[r.pos + i - base]
    ensures Describes(r, chars, Entry(text, r.insertLength, r.deleteLength), after, base)
  {
    var a, b := chars[base..base + r.insertLength], text[r.pos..r.pos + r.insertLength];
    forall i | 0 <= i < |a| ensures a[i] == b[i] {
      assert a[i] == chars[base + i];
    }
    assert a == b;
  }

  lemma NoPast(recs: seq<UndoRecord>, chars: seq<char>, present: string)
    requires |recs| == RECORDS && |chars| == CHARS
    ensures HoldsPast(recs, chars, [], present) && Stored([]) == 0
  {
  }

  lemma StoredFits(recs: seq<UndoRecord>, chars: seq<char>, past: seq<Entry>, present: string)
    requires HoldsPast(recs, chars, past, present)
    ensures Stored(past) <= CHARS && |past| <= RECORDS
  {
  }

  lemma FutureFits(recs: seq<UndoRecord>, chars: seq<char>, future: seq<Entry>, present: string)
    requires HoldsFuture(recs, chars, future, present)
    ensures Stored(future) <= CHARS && |future| <= RECORDS
  {
  }

  /** With nothing to redo, the other side is in order as soon as it fits. */
  lemma Emptied(recs: seq<UndoRecord>, chars: seq<char>, z: History)
    requires HoldsPast(recs, chars, z.past, z.present) && z.future == []
    ensures HoldsFuture(recs, chars, z.future, z.present) && Sound(z) && Stored(z.future) == 0
    ensures Stored(z.past) <= CHARS && |z.past| <= RECORDS
  {
  }

  /** Dropping the oldest redo leaves the others redoable. */
  lemma DiscardSound(z: History)
    requires Sound(z) && z.future != []
    ensures Sound(z.(future := z.future[..|z.future| - 1]))
  {
    RedoableInit(Stored(z.past), z.future);
  }

  lemma {:induction false} RedoableInit(a: int, future: seq<Entry>)
    requires future != [] && Redoable(a, future)
    ensures Redoable(a, future[..|future| - 1])
    decreases |future|
  {
    PastSplit(future);
    if |future| > 1 {
      assert future[..|future| - 1][1..] == future[1..][..|future| - 2];
      RedoableInit(a + future[0].removed, future[1..]);
    }
  }

  /** The effect of moving n elements from src to dst. */
  function Slid<T>(s: seq<T>, dst: int, src: int, n: int): (t: seq<T>)
    requires 0 <= dst && 0 <= src && 0 <= n && dst + n <= |s| && src + n <= |s|
    ensures |t| == |s|
    ensures forall i :: 0 <= i < |s| ==> t[i] == if dst <= i < dst + n then s[i - dst + src] else s[i]
  {
    s[..dst] + s[src..src + n] + s[dst + n..]
  }

  /** A block move that works for overlapping ranges. */
  method Move<T>(a: array<T>, dst: int, src: int, n: int)
    requires 0 <= dst && 0 <= src && 0 <= n && dst + n <= a.Length && src + n <= a.Length
    modifies a
    ensures a[..] == Slid(old(a[..]), dst, src, n)
  {
    forall i | dst <= i < dst + n {
      a[i] := a[i - dst + src];
    }
  }

  /** The records lo, ..., hi - 1 with their characters moved by n. */
  function MovedIn(recs: seq<UndoRecord>, lo: int, hi: int, n: int): (t: seq<UndoRecord>)
    requires 0 <= lo <= hi <= |recs|
    ensures |t| == |recs|
    ensures forall i :: 0 <= i < |recs| ==> t[i] == if lo <= i < hi then Moved(recs[i], n) else recs[i]
  {
    seq(|recs|, i requires 0 <= i < |recs| => if lo <= i < hi then Moved(recs[i], n) else recs[i])
  }

  lemma DescribesNat(r: UndoRecord, chars: seq<char>, e: Entry, from: string, base: int)
    requires Describes(r, chars, e, from, base)
    ensures 0 <= r.pos && 0 <= r.insertLength == e.stored && 0 <= r.deleteLength == e.removed
    ensures 0 <= base && base + e.stored <= |chars|
    ensures r.pos + r.deleteLength <= |from| && |e.text| == |from| - e.removed + e.stored
  {
  }

  /** The record that takes back the application of record u to `from`. */
  lemma RedoDescribes(u: UndoRecord, chars: seq<char>, e: Entry, from: string, base: int,
                      r: UndoRecord, chars': seq<char>, base': int)
    requires Describes(u, chars, e, from, base)
    requires r == UndoRecord(u.pos, u.deleteLength, u.insertLength, if u.deleteLength == 0 then -1 else base')
    requires 0 <= base' && base' + u.deleteLength <= |chars'|
    requires forall i :: base' <= i < base' + u.deleteLength ==> chars'[i] == from[u.pos + i - base']
    ensures Describes(r, chars', Entry(from, e.removed, e.stored), e.text, base')
  {
    ReplaceBack(from, u.pos, u.deleteLength, chars[base..base + e.stored]);
    RecordDescribes(r, chars', from, e.text, base');
  }

  /** Putting back what a replacement took out. */
  lemma ReplaceBack(text: string, pos: int, n: int, put: string)
    requires 0 <= pos && 0 <= n && pos + n <= |text|
    ensures |Replace(text, pos, n, put)| == |text| - n + |put|
    ensures Replace(Replace(text, pos, n, put), pos, |put|, text[pos..pos + n]) == text
  {
  }

  lemma StoredPushed(z: History)
    requires z.past != []
    ensures Stored(Undo(z).future) == Stored(z.future) + z.past[|z.past| - 1].removed
    ensures Stored(Undo(z).past) == Stored(z.past) - z.past[|z.past| - 1].stored
  {
    PastSplit(z.past);
    assert Undo(z).future[1..] == z.future;
  }

  lemma StoredPopped(z: History)
    requires z.future != []
    ensures Stored(Redo(z).past) == Stored(z.past) + z.future[0].removed
    ensures Stored(Redo(z).future) == Stored(z.future) - z.future[0].stored
  {
    StoredConcat(z.past, [Entry(z.present, z.future[0].removed, z.future[0].stored)]);
  }

  /** The text that a record puts in. */
  function TextOf(r: UndoRecord, chars: seq<char>): (t: string)
    requires 0 <= r.insertLength
             && (r.insertLength > 0 ==> 0 <= r.charStorage && r.charStorage + r.insertLength <= |chars|)
    ensures |t| == r.insertLength
  {
    if r.insertLength == 0 then "" else chars[r.charStorage..r.charStorage + r.insertLength]
  }

  lemma DescribesText(r: UndoRecord, chars: seq<char>, e: Entry, from: string, base: int)
    requires Describes(r, chars, e, from, base)
    ensures 0 <= r.insertLength
            && (r.insertLength > 0 ==> r.charStorage == base && 0 <= base && base + r.insertLength <= |chars|)
    ensures 0 <= r.pos && 0 <= r.deleteLength && r.pos + r.deleteLength <= |from|
    ensures e.text == Replace(from, r.pos, r.deleteLength, TextOf(r, chars))
  {
    assert r.insertLength == 0 ==> chars[base..base + e.stored] == "";
  }

  /** The characters with `put` stored at a place. */
  function Stashed(chars: seq<char>, at: int, put: string): (t: seq<char>)
    requires 0 <= at && at + |put| <= |chars|
    ensures |t| == |chars|
    ensures forall i :: 0 <= i < |t| ==> t[i] == if at <= i < at + |put| then put[i - at] else chars[i]
  {
    chars[..at] + put + chars[at + |put|..]
  }

  /** The record that takes back the application of a record with the effect of replacing n
      characters at pos by `put`. */
  function TakesBack(pos: int, n: int, put: string, at: int): UndoRecord {
    UndoRecord(pos, n, |put|, if n == 0 then -1 else at)
  }

  /** A text replaced on record: the past is one longer. */
  lemma PushReplaced(recs: seq<UndoRecord>, chars: seq<char>, past: seq<Entry>, text: string, pos: int, n: int,
                     put: string)
    requires HoldsPast(recs, chars, past, text) && |past| < RECORDS == |recs| && |chars| == CHARS
    requires 0 <= pos && 0 <= n && pos + n <= |text| && Stored(past) + n <= CHARS
    ensures var at := Stored(past);
            && HoldsPast(recs[|past| := TakesBack(pos, n, put, at)], Stashed(chars, at, text[pos..pos + n]),
                         past + [Entry(text, n, |put|)], Replace(text, pos, n, put))
            && Stored(past + [Entry(text, n, |put|)]) == at + n
  {
    hide HoldsPast, Stored, Describes, Replace;
    StoredFits(recs, chars, past, text);
    var at, r, after := Stored(past), TakesBack(pos, n, put, Stored(past)), Replace(text, pos, n, put);
    var recs', chars' := recs[|past| := r], Stashed(chars, at, text[pos..pos + n]);
    PastFrame(recs, chars, recs', chars', past, text);
    ReplaceBack(text, pos, n, put);
    RecordDescribes(r, chars', text, after, at);
    PastPush(recs', chars', past, Entry(text, n, |put|), after);
  }

  /** The rest of the future is not touched by what is stored for undo. */
  lemma FutureRest(recs: seq<UndoRecord>, chars: seq<char>, z: History, at: int, r': UndoRecord, n: int, put: string)
    requires z.future != [] && HoldsFuture(recs, chars, z.future, z.present)
    requires |recs| == RECORDS && |chars| == CHARS
    requires 0 <= n <= RECORDS - |z.future| && 0 <= at && at + |put| <= CHARS - Stored(z.future)
    ensures HoldsFuture(recs[n := r'], Stashed(chars, at, put), z.future[1..], z.future[0].text)
    ensures Describes(recs[RECORDS - |z.future|], Stashed(chars, at, put), z.future[0], z.present,
                      CHARS - Stored(z.future))
  {
    hide HoldsFuture, Stored, Describes, Replace;
    FuturePop(recs, chars, z.future, z.present);
    FutureFits(recs, chars, z.future, z.present);
    FutureStored(z.future);
    DescribesNat(recs[RECORDS - |z.future|], chars, z.future[0], z.present, CHARS - Stored(z.future));
    FutureFrame(recs, chars, recs[n := r'], Stashed(chars, at, put), z.future[1..], z.future[0].text);
    DescribesFrame(recs[RECORDS - |z.future|], chars, Stashed(chars, at, put), z.future[0], z.present,
                   CHARS - Stored(z.future));
  }

  lemma FutureStored(future: seq<Entry>)
    requires future != []
    ensures Stored(future) == future[0].stored + Stored(future[1..])
  {
  }

  lemma SoundFuture(z: History)
    requires Sound(z)
    ensures |z.past| + |z.future| <= RECORDS && Stored(z.future) <= CHARS
  {
  }

  lemma SoundFits(z: History)
    requires Sound(z)
    ensures |z.past| + |z.future| <= RECORDS && Stored(z.past) + Stored(z.future) <= CHARS
  {
  }

  lemma NothingMoved(recs: seq<UndoRecord>, chars: seq<char>, lo: int, hi: int, at: int, n: int)
    requires 0 <= lo <= hi <= |recs| && 0 <= at && 0 <= n && at + n <= |chars|
    ensures MovedIn(recs, lo, hi, 0) == recs && Slid(chars, at, at, n) == chars
  {
  }

  // ----- discarding redo records ---------------------------------------------

  /** How many characters a redo record gives back when it is discarded. */
  function Size(r: UndoRecord): int {
    if r.charStorage >= 0 then r.insertLength else 0
  }

  /** The sizes of the redo records, which begin at `from`. */
  function SizesOf(recs: seq<UndoRecord>, from: int): (t: seq<int>)
    requires 0 <= from <= |recs|
    ensures |t| == |recs| - from && forall i :: 0 <= i < |t| ==> t[i] == Size(recs[from + i])
  {
    seq(|recs| - from, i requires 0 <= i < |recs| - from => Size(recs[from + i]))
  }

  /** What comes of discarding redo records, the oldest first, until `need` characters fit
      below the stored ones: they fit after some were dropped, or do not fit with none left,
      or a record claims to give back more than the buffer holds. */
  datatype Outcome = Room(dropped: int, charPoint: int) | Refused(charPoint: int) | Overrun

  function Reclaim(sizes: seq<int>, charPoint: int, need: int): (r: Outcome)
    ensures need <= charPoint ==> r == Room(0, charPoint)
    ensures r.Room? ==> 0 <= r.dropped <= |sizes| && need <= r.charPoint && (charPoint < need ==> 0 < r.dropped)
    ensures r.Refused? ==> r.charPoint < need
  {
    if need <= charPoint then Room(0, charPoint)
    else if sizes == [] then Refused(charPoint)
    else
      var n := sizes[|sizes| - 1];
      if n < 0 || charPoint + n > CHARS then Overrun
      else
        var r := Reclaim(sizes[..|sizes| - 1], charPoint + n, need);
        if r.Room? then r.(dropped := r.dropped + 1) else r
  }

  lemma ReclaimOne(sizes: seq<int>, charPoint: int, need: int)
    requires charPoint < need && sizes != []
    ensures var n, rest := sizes[|sizes| - 1], sizes[..|sizes| - 1];
            if n < 0 || charPoint + n > CHARS then Reclaim(sizes, charPoint, need) == Overrun
            else
              var r := Reclaim(rest, charPoint + n, need);
              Reclaim(sizes, charPoint, need) == if r.Room? then r.(dropped := r.dropped + 1) else r
  {
  }

  lemma ReclaimNone(charPoint: int, need: int)
    requires charPoint < need
    ensures Reclaim([], charPoint, need) == Refused(charPoint)
  {
  }

  lemma ReclaimDone(sizes: seq<int>, charPoint: int, need: int)
    requires need <= charPoint
    ensures Reclaim(sizes, charPoint, need) == Room(0, charPoint)
  {
  }

  /** What the last k records give back when they are discarded. */
  function Freed(sizes: seq<int>, k: int): int
    requires 0 <= k <= |sizes|
  {
    if k == 0 then 0 else sizes[|sizes| - 1] + Freed(sizes[..|sizes| - 1], k - 1)
  }

  function AllFreed(sizes: seq<int>): int {
    Freed(sizes, |sizes|)
  }

  predicate NoneNegative(sizes: seq<int>) {
    forall i :: 0 <= i < |sizes| ==> 0 <= sizes[i]
  }

  lemma {:induction false} FreedGrows(sizes: seq<int>, k: int, n: int)
    requires NoneNegative(sizes) && 0 <= k <= n <= |sizes|
    ensures 0 <= Freed(sizes, k) <= Freed(sizes, n)
    decreases |sizes|
  {
    if k > 0 {
      FreedGrows(sizes[..|sizes| - 1], k - 1, n - 1);
    } else if n > 0 {
      FreedGrows(sizes[..|sizes| - 1], 0, n - 1);
    }
  }

  lemma FreedStep(sizes: seq<int>, k: int)
    requires 0 < k <= |sizes|
    ensures Freed(sizes, k) == sizes[|sizes| - 1] + Freed(sizes[..|sizes| - 1], k - 1)
  {
  }

  /** Discarding is refused if and only if all records together do not free enough; otherwise
      as many are dropped as are needed and no more. */
  lemma {:induction false} ReclaimIs(sizes: seq<int>, charPoint: int, need: int)
    requires NoneNegative(sizes) && charPoint <= CHARS && need <= CHARS
    ensures var r := Reclaim(sizes, charPoint, need);
            && (r.Refused? <==> charPoint + AllFreed(sizes) < need)
            && (r.Refused? ==> r.charPoint == charPoint + AllFreed(sizes))
            && (r.Room? ==> r.charPoint == charPoint + Freed(sizes, r.dropped) <= CHARS)
            && (r.Room? ==> forall k :: 0 <= k < r.dropped ==> charPoint + Freed(sizes, k) < need)
    decreases |sizes|
  {
    hide Freed, Reclaim;
    var n := |sizes|;
    FreedNone(sizes);
    FreedGrows(sizes, 0, n);
    if charPoint < need {
      if n == 0 {
        ReclaimNone(charPoint, need);
      } else {
        var last, rest := sizes[n - 1], sizes[..n - 1];
        ReclaimOne(sizes, charPoint, need);
        FreedStep(sizes, n);
        FreedGrows(rest, 0, n - 1);
        FreedNone(rest);
        if charPoint + last <= CHARS {
          ReclaimIs(rest, charPoint + last, need);
          forall k | 0 < k <= n ensures Freed(sizes, k) == last + Freed(rest, k - 1) {
            FreedStep(sizes, k);
          }
        }
      }
    }
  }

  lemma FreedNone(sizes: seq<int>)
    ensures Freed(sizes, 0) == 0
  {
  }

  /** With k records dropped there is not enough yet, and the next one takes the characters
      past the end of the buffer. */
  ghost predicate PastEnd(sizes: seq<int>, charPoint: int, need: int, k: int) {
    0 <= k < |sizes| && charPoint + Freed(sizes, k) < need && CHARS < charPoint + Freed(sizes, k + 1)
  }

  ghost predicate GoesPastEnd(sizes: seq<int>, charPoint: int, need: int) {
    exists k :: PastEnd(sizes, charPoint, need, k)
  }

  lemma {:induction false} OverrunIs(sizes: seq<int>, charPoint: int, need: int)
    requires NoneNegative(sizes) && charPoint <= CHARS && need <= CHARS
    ensures Reclaim(sizes, charPoint, need).Overrun? <==> GoesPastEnd(sizes, charPoint, need)
    decreases |sizes|
  {
    hide Freed, Reclaim;
    var n := |sizes|;
    FreedNone(sizes);
    if need <= charPoint {
      forall k ensures !PastEnd(sizes, charPoint, need, k) {
        if 0 <= k < n {
          FreedGrows(sizes, 0, k);
        }
      }
    } else if n == 0 {
      ReclaimNone(charPoint, need);
    } else {
      var last, rest := sizes[n - 1], sizes[..n - 1];
      ReclaimOne(sizes, charPoint, need);
      FreedStep(sizes, 1);
      FreedNone(rest);
      if charPoint + last > CHARS {
        assert PastEnd(sizes, charPoint, need, 0);
      } else {
        var next := charPoint + last;
        OverrunIs(rest, next, need);
        if k :| PastEnd(sizes, charPoint, need, k) {
          assert k != 0;
          PastEndStep(sizes, charPoint, need, k);
        }
        if k :| PastEnd(rest, next, need, k) {
          PastEndStep(sizes, charPoint, need, k + 1);
        }
      }
    }
  }

  lemma PastEndStep(sizes: seq<int>, charPoint: int, need: int, k: int)
    requires 0 < k && sizes != []
    ensures var last, rest := sizes[|sizes| - 1], sizes[..|sizes| - 1];
            PastEnd(sizes, charPoint, need, k) <==> PastEnd(rest, charPoint + last, need, k - 1)
  {
    hide Freed;
    if k < |sizes| {
      FreedStep(sizes, k);
      FreedStep(sizes, k + 1);
    }
  }

  /** As long as the records claim no more than the buffer holds, no discard goes past its end. */
  lemma NoOverrun(sizes: seq<int>, charPoint: int, need: int)
    requires NoneNegative(sizes) && charPoint + AllFreed(sizes) <= CHARS && need <= CHARS
    ensures !Reclaim(sizes, charPoint, need).Overrun?
  {
    FreedGrows(sizes, 0, |sizes|);
    OverrunIs(sizes, charPoint, need);
    if k :| PastEnd(sizes, charPoint, need, k) {
      FreedGrows(sizes, k + 1, |sizes|);
    }
  }

  lemma {:induction false} FreedSplit(sizes: seq<int>, k: int)
    requires 0 <= k <= |sizes|
    ensures AllFreed(sizes) == AllFreed(sizes[..|sizes| - k]) + Freed(sizes, k)
    decreases k
  {
    var n := |sizes|;
    if k == 0 {
      assert sizes[..n] == sizes;
    } else {
      FreedSplit(sizes[..n - 1], k - 1);
      assert sizes[..n - 1][..n - k] == sizes[..n - k];
    }
  }

  lemma {:induction false} FreedCons(n: int, sizes: seq<int>)
    ensures AllFreed([n] + sizes) == n + AllFreed(sizes)
  {
    if sizes == [] {
      assert [n] + sizes == [n];
    } else {
      assert ([n] + sizes)[..|sizes|] == [n] + sizes[..|sizes| - 1];
      FreedCons(n, sizes[..|sizes| - 1]);
    }
  }

  lemma {:induction false} StoredIsFreed(es: seq<Entry>, sizes: seq<int>)
    requires |sizes| == |es| && forall i :: 0 <= i < |es| ==> sizes[i] == es[i].stored
    ensures AllFreed(sizes) == Stored(es)
    decreases |es|
  {
    if es != [] {
      PastSplit(es);
      StoredIsFreed(es[..|es| - 1], sizes[..|es| - 1]);
    }
  }

  /** All redo records put back a number of characters. */
  ghost predicate Naturals(recs: seq<UndoRecord>, from: int) {
    0 <= from && forall i :: from <= i < |recs| ==> 0 <= recs[i].insertLength
  }

  lemma StillNatural(recs: seq<UndoRecord>, recs': seq<UndoRecord>, n: int, from: int)
    requires Naturals(recs, from) && n <= from
    requires |recs'| == |recs| && forall i :: 0 <= i < |recs| && i != n ==> recs'[i] == recs[i]
    ensures Naturals(recs', from + 1)
  {
  }

  lemma NaturalSizes(recs: seq<UndoRecord>, from: int)
    requires Naturals(recs, from) && from <= |recs|
    ensures NoneNegative(SizesOf(recs, from))
  {
  }

  /** Discarding a record leaves the sizes of the others, and what is below the redo records. */
  lemma DiscardEffect(recs: seq<UndoRecord>, chars: seq<char>, rp: int, rcp: int)
    requires |recs| == RECORDS && |chars| == CHARS && 0 <= rp < RECORDS
    requires 0 <= Size(recs[RECORDS - 1]) && 0 <= rcp && rcp + Size(recs[RECORDS - 1]) <= CHARS
    ensures var n := Size(recs[RECORDS - 1]);
            var recs' := Slid(MovedIn(recs, rp, RECORDS - 1, n), rp + 1, rp, RECORDS - rp - 1);
            && SizesOf(recs', rp + 1) == SizesOf(recs, rp)[..RECORDS - rp - 1]
            && recs'[rp].(charStorage := 0) == recs[rp].(charStorage := 0)
            && (rp + 1 < RECORDS ==> recs'[rp + 1].(charStorage := 0) == recs[rp].(charStorage := 0))
            && SameBelow(recs, recs', rp) && SameBelow(chars, Slid(chars, rcp + n, rcp, CHARS - rcp - n), rcp)
            && (Naturals(recs, rp) ==> Naturals(recs', rp + 1))
  {
    var n := Size(recs[RECORDS - 1]);
    var m := MovedIn(recs, rp, RECORDS - 1, n);
    var recs' := Slid(m, rp + 1, rp, RECORDS - rp - 1);
    assert recs'[rp] == m[rp];
    assert rp + 1 < RECORDS ==> recs'[rp + 1] == m[rp];
    forall i | 0 <= i < RECORDS - rp - 1 ensures SizesOf(recs', rp + 1)[i] == SizesOf(recs, rp)[i] {
      assert recs'[rp + 1 + i] == m[rp + i];
    }
    forall i | rp + 1 <= i < RECORDS ensures recs'[i].insertLength == recs[i - 1].insertLength {
      assert recs'[i] == m[i - 1];
    }
  }

  /** The text is stored at a place. */
  ghost predicate Stores(chars: seq<char>, at: int, text: string) {
    0 <= at && at + |text| <= |chars| && chars[at..at + |text|] == text
  }

  lemma StoresIs(chars: seq<char>, at: int, text: string)
    requires 0 <= at && at + |text| <= |chars| && forall i :: at <= i < at + |text| ==> chars[i] == text[i - at]
    ensures Stores(chars, at, text)
  {
  }

  lemma StashedElsewhere(chars: seq<char>, at: int, put: string, from: int, text: string)
    requires Stores(chars, from, text) && 0 <= at && at + |put| <= from
    ensures at + |put| <= |chars| && Stores(Stashed(chars, at, put), from, text)
  {
    var t := Stashed(chars, at, put);
    assert t[from..from + |text|] == chars[from..from + |text|];
  }

  lemma ReadBack(r: UndoRecord, chars: seq<char>, text: string)
    requires Stores(chars, r.charStorage, text) && 0 <= r.insertLength <= |text|
    ensures TextOf(r, chars) == text[..r.insertLength]
  {
    assert text[..r.insertLength] == chars[r.charStorage..r.charStorage + |text|][..r.insertLength];
  }

  ghost predicate SameBut(r: UndoRecord, r': UndoRecord) {
    r'.(charStorage := 0) == r.(charStorage := 0)
  }

  /** The buffers after some redo records were discarded: those left are as big as before, what is
      below them has not changed, and a copy of what was their first is left right below them. */
  ghost predicate Discarded(recs: seq<UndoRecord>, chars: seq<char>, rp: int, rcp: int,
                            recs': seq<UndoRecord>, chars': seq<char>, rp': int, rcp': int) {
    && |recs| == |recs'| == RECORDS && |chars| == |chars'| == CHARS
    && 0 <= rp <= rp' <= RECORDS && 0 <= rcp <= rcp' <= CHARS
    && SizesOf(recs', rp') == SizesOf(recs, rp)[..RECORDS - rp']
    && (rp' < RECORDS ==> SameBut(recs[rp], recs'[rp'])) && (rp < rp' ==> SameBut(recs[rp], recs'[rp' - 1]))
    && SameBelow(recs, recs', rp) && SameBelow(chars, chars', rcp)
    && (rp == rp' ==> recs' == recs && chars' == chars)
    && (Naturals(recs, rp) ==> Naturals(recs', rp'))
  }

  lemma NoneDiscarded(recs: seq<UndoRecord>, chars: seq<char>, rp: int, rcp: int)
    requires |recs| == RECORDS && |chars| == CHARS && 0 <= rp <= RECORDS && 0 <= rcp <= CHARS
    ensures Discarded(recs, chars, rp, rcp, recs, chars, rp, rcp)
  {
    assert SizesOf(recs, rp)[..RECORDS - rp] == SizesOf(recs, rp);
  }

  lemma OneMoreDiscarded(recs0: seq<UndoRecord>, chars0: seq<char>, rp0: int, rcp0: int,
                         recs: seq<UndoRecord>, chars: seq<char>, rp: int, rcp: int)
    requires Discarded(recs0, chars0, rp0, rcp0, recs, chars, rp, rcp) && rp < RECORDS
    requires 0 <= Size(recs[RECORDS - 1]) && rcp + Size(recs[RECORDS - 1]) <= CHARS
    ensures var n := Size(recs[RECORDS - 1]);
            var recs', chars' := Slid(MovedIn(recs, rp, RECORDS - 1, n), rp + 1, rp, RECORDS - rp - 1),
                                 Slid(chars, rcp + n, rcp, CHARS - rcp - n);
            && Discarded(recs0, chars0, rp0, rcp0, recs', chars', rp + 1, rcp + n)
            && SizesOf(recs', rp + 1) == SizesOf(recs, rp)[..|SizesOf(recs, rp)| - 1]
  {
    hide Slid, MovedIn, SizesOf, SameBelow, Naturals;
    DiscardEffect(recs, chars, rp, rcp);
    var n := Size(recs[RECORDS - 1]);
    var recs', chars' := Slid(MovedIn(recs, rp, RECORDS - 1, n), rp + 1, rp, RECORDS - rp - 1),
                         Slid(chars, rcp + n, rcp, CHARS - rcp - n);
    SameBelowAgain(recs0, recs, recs', rp0, rp);
    SameBelowAgain(chars0, chars, chars', rcp0, rcp);
    assert |SizesOf(recs0, rp0)| == RECORDS - rp0 && |SizesOf(recs, rp)| == RECORDS - rp;
  }

  lemma SameAsItself<T>(a: seq<T>, n: int)
    requires n <= |a|
    ensures SameBelow(a, a, n)
  {
  }

  lemma SameBelowLess<T>(a: seq<T>, b: seq<T>, k: int, n: int)
    requires SameBelow(a, b, n) && k <= n
    ensures SameBelow(a, b, k)
  {
  }

  lemma SameBelowAgain<T>(a: seq<T>, b: seq<T>, c: seq<T>, k: int, n: int)
    requires SameBelow(a, b, k) && SameBelow(b, c, n) && k <= n
    ensures SameBelow(a, c, k)
  {
  }

  lemma SizesAbove(recs: seq<UndoRecord>, recs': seq<UndoRecord>, from: int)
    requires 0 <= from <= |recs| == |recs'| && forall i :: from <= i < |recs| ==> recs'[i] == recs[i]
    ensures SizesOf(recs', from) == SizesOf(recs, from)
  {
  }

  /** The sizes of complete redo records are what they store. */
  lemma SizesAreStored(recs: seq<UndoRecord>, chars: seq<char>, future: seq<Entry>, present: string)
    requires HoldsFuture(recs, chars, future, present)
    ensures forall i :: 0 <= i < |future| ==> SizesOf(recs, RECORDS - |future|)[i] == future[i].stored
  {
    hide Stored, Replace;
    forall i | 0 <= i < |future| ensures SizesOf(recs, RECORDS - |future|)[i] == future[i].stored {
      assert FutureEntry(recs, chars, future, present, i);
    }
  }

  /** With complete redo records there is room in the end. */
  lemma {:induction false} CompleteHasRoom(future: seq<Entry>, sizes: seq<int>, need: int)
    requires |sizes| == |future| && forall i :: 0 <= i < |future| ==> sizes[i] == future[i].stored
    requires need <= CHARS && Stored(future) <= CHARS
    ensures Reclaim(sizes, CHARS - Stored(future), need).Room?
    decreases |future|
  {
    if future != [] && CHARS - Stored(future) < need {
      PastSplit(future);
      CompleteHasRoom(future[..|future| - 1], sizes[..|sizes| - 1], need);
    }
  }

  // ----- edits as steps of the history ---------------------------------------

  function AtMost(x: int, n: int): int {
    if x > n then n else x
  }

  /** The selected range of a text of length n. */
  function Selected(start: int, end: int, n: int): (int, int) {
    var a, b := AtMost(start, n), AtMost(end, n);
    if a < b then (a, b) else (b, a)
  }

  /** What is selected lies in the text between the two ends, in whichever order these come. */
  lemma SelectedIs(start: nat, end: nat, n: nat, c: int)
    ensures var (lo, hi) := Selected(start, end, n);
            && 0 <= lo <= hi <= n
            && (lo <= c < hi <==> c < n && (start <= c < end || end <= c < start))
  {
  }

  /** Replacing leaves what is before and behind, and shifts what is behind. */
  lemma ReplacedAt(text: string, pos: nat, n: nat, put: string, c: nat)
    requires pos + n <= |text|
    ensures |Replace(text, pos, n, put)| == |text| + |put| - n
    ensures c < |text| + |put| - n ==>
              Replace(text, pos, n, put)[c] ==
              if c < pos then text[c] else if c < pos + |put| then put[c - pos] else text[c + n - |put|]
  {
  }

  function Deletion(z: History, pos: int, n: int): History
    requires 0 <= pos && 0 <= n && pos + n <= |z.present|
  {
    Record(z, Replace(z.present, pos, n, ""), n, 0)
  }

  function Insertion(z: History, pos: int, text: string): History
    requires 0 <= pos <= |z.present|
  {
    Record(z, Replace(z.present, pos, 0, text), 0, |text|)
  }

  function Overwrite(z: History, pos: int, ch: char): History
    requires 0 <= pos < |z.present|
  {
    Record(z, Replace(z.present, pos, 1, [ch]), 1, 1)
  }

  class TextEditState {
    var str: string          // the host's text
    var cursor: int
    var selectStart: int
    var selectEnd: int
    var insertMode: bool
    var singleLine: bool
    const undoRec: array<UndoRecord>
    const undoChar: array<char>
    var undoPoint: int
    var redoPoint: int
    var undoCharPoint: int
    var redoCharPoint: int
    ghost var z: History     // what the buffers stand for
    ghost var intact: bool   // no undo since the last edit had to drop what its redo needs

    ghost predicate PastOk()
      reads this, undoRec, undoChar
    {
      && undoRec.Length == RECORDS && undoChar.Length == CHARS
      && HoldsPast(undoRec[..], undoChar[..], z.past, z.present)
      && undoPoint == |z.past| && undoCharPoint == Stored(z.past)
    }

    ghost predicate FutureOk()
      reads this, undoRec, undoChar
    {
      && undoRec.Length == RECORDS && undoChar.Length == CHARS
      && HoldsFuture(undoRec[..], undoChar[..], z.future, z.present)
      && redoPoint == RECORDS - |z.future| && redoCharPoint == CHARS - Stored(z.future)
      && Sound(z)
    }

    /** The buffers stand for the history z. */
    ghost predicate Holds()
      reads this, undoRec, undoChar
    {
      && PastOk()
      && undoPoint <= redoPoint <= RECORDS && undoCharPoint <= redoCharPoint <= CHARS
      && Naturals(undoRec[..], redoPoint)
      && (intact ==> FutureOk())
    }

    ghost predicate Valid()
      reads this, undoRec, undoChar
    {
      Holds() && z.present == str && 0 <= cursor && 0 <= selectStart && 0 <= selectEnd
    }

    constructor ()
      ensures Valid() && intact && z == History([], "", []) && fresh(undoRec) && fresh(undoChar)
    {
      undoRec := new UndoRecord[RECORDS](_ => UndoRecord(0, 0, 0, -1));
      undoChar := new char[CHARS](_ => ' ');
      str, cursor, selectStart, selectEnd := "", 0, 0, 0;
      insertMode, singleLine := false, false;
      undoPoint, redoPoint, undoCharPoint, redoCharPoint := 0, RECORDS, 0, CHARS;
      z, intact := History([], "", []), true;
    }

    /** Forgets everything that could be redone. */
    method FlushRedo()
      requires PastOk()
      modifies this`redoPoint, this`redoCharPoint, this`z, this`intact
      ensures PastOk() && intact && z == old(z).(future := [])
      ensures redoPoint == RECORDS && redoCharPoint == CHARS
    {
      redoPoint := RECORDS;
      redoCharPoint := CHARS;
      z := z.(future := []);
      intact := true;
    }

    /** Moves the characters of the records lo, ..., hi - 1 by n, in the records. */
    method MoveStorage(lo: int, hi: int, n: int)
      requires 0 <= lo <= hi <= undoRec.Length
      modifies undoRec
      ensures undoRec[..] == MovedIn(old(undoRec[..]), lo, hi, n)
    {
      for i := lo to hi
        invariant undoRec[..] == MovedIn(old(undoRec[..]), lo, i, n)
      {
        if undoRec[i].charStorage >= 0 {
          undoRec[i] := undoRec[i].(charStorage := undoRec[i].charStorage + n);
        }
      }
    }

    /** Discards the oldest undo record, and only that: the other records keep
        their positions and lengths, and their characters. */
    method DiscardUndo()
      requires PastOk()
      modifies undoRec, undoChar, this`undoPoint, this`undoCharPoint, this`z
      ensures PastOk() && z == old(z).(past := if old(z).past == [] then [] else old(z).past[1..])
      ensures old(z).past != [] ==>
                var n: int := old(z).past[0].stored;
                && undoRec[..] == Slid(MovedIn(old(undoRec[..]), 0, old(undoPoint), -n), 0, 1, undoPoint)
                && undoChar[..] == Slid(old(undoChar[..]), 0, n, undoCharPoint)
    {
      hide HoldsPast, Stored, Slid, MovedIn;
      if undoPoint > 0 {
        ghost var recs, chars := undoRec[..], undoChar[..];
        PastFirst(recs, chars, z.past, z.present);
        PastDiscard(recs, chars, z.past, z.present);
        if undoRec[0].charStorage >= 0 {
          var n := undoRec[0].insertLength;
          undoCharPoint := undoCharPoint - n;
          Move(undoChar, 0, n, undoCharPoint);
          MoveStorage(0, undoPoint, -n);
        } else {
          NothingMoved(recs, chars, 0, undoPoint, 0, undoCharPoint);
        }
        undoPoint := undoPoint - 1;
        Move(undoRec, 0, 1, undoPoint);
        z := z.(past := z.past[1..]);
      }
    }

    /** The sizes of all redo records. */
    function Sizes(): seq<int>
      requires 0 <= redoPoint <= undoRec.Length
      reads this, undoRec
    {
      SizesOf(undoRec[..], redoPoint)
    }

    ghost predicate Bounded()
      reads this
    {
      && undoRec.Length == RECORDS && undoChar.Length == CHARS
      && 0 <= redoPoint <= RECORDS && 0 <= redoCharPoint <= CHARS
    }

    /** Discards the oldest redo record, and only that: the other records keep their positions
        and lengths, and their characters. */
    method DiscardRedo()
      requires Bounded()
      requires redoPoint < RECORDS ==> 0 <= Size(undoRec[RECORDS - 1]) <= CHARS - redoCharPoint
      modifies undoRec, undoChar, this`redoPoint, this`redoCharPoint, this`z
      ensures Bounded() && (old(FutureOk()) ==> FutureOk())
      ensures z ==
              if old(FutureOk()) && old(z).future != [] then old(z).(future := old(z).future[..|old(z).future| - 1])
              else old(z)
      ensures old(redoPoint) == RECORDS ==>
                && undoRec[..] == old(undoRec[..]) && undoChar[..] == old(undoChar[..])
                && redoPoint == old(redoPoint) && redoCharPoint == old(redoCharPoint)
      ensures old(redoPoint) < RECORDS ==>
                var n, rp := Size(old(undoRec[..])[RECORDS - 1]), old(redoPoint);
                && redoPoint == rp + 1 && redoCharPoint == old(redoCharPoint) + n
                && undoRec[..] ==
                   Slid(MovedIn(old(undoRec[..]), rp, RECORDS - 1, n), redoPoint, rp, RECORDS - redoPoint)
                && undoChar[..] == Slid(old(undoChar[..]), redoCharPoint, old(redoCharPoint), CHARS - redoCharPoint)
    {
      hide HoldsFuture, Stored, Sound, Slid, MovedIn;
      ghost var complete := FutureOk();
      if redoPoint <= RECORDS - 1 {
        ghost var recs, chars := undoRec[..], undoChar[..];
        if complete {
          FutureFits(recs, chars, z.future, z.present);
          FutureLast(recs, chars, z.future, z.present);
          FutureDiscard(recs, chars, z.future, z.present);
          DiscardSound(z);
        }
        if undoRec[RECORDS - 1].charStorage >= 0 {
          var n := undoRec[RECORDS - 1].insertLength;
          redoCharPoint := redoCharPoint + n;
          Move(undoChar, redoCharPoint, redoCharPoint - n, CHARS - redoCharPoint);
          MoveStorage(redoPoint, RECORDS - 1, n);
        } else {
          NothingMoved(recs, chars, redoPoint, RECORDS - 1, redoCharPoint, CHARS - redoCharPoint);
        }
        Move(undoRec, redoPoint + 1, redoPoint, RECORDS - redoPoint - 1);
        redoPoint := redoPoint + 1;
        if complete {
          z := z.(future := z.future[..|z.future| - 1]);
        }
      }
    }

    /** A fresh undo record, for an edit that needs n characters stored; NONE if
        they can never fit.  The oldest records are discarded to make room. */
    method CreateUndoRecord(n: int) returns (index: int)
      requires PastOk() && 0 <= n
      modifies undoRec, undoChar, this`undoPoint, this`undoCharPoint, this`redoPoint, this`redoCharPoint, this`z,
               this`intact
      ensures undoRec.Length == RECORDS && undoChar.Length == CHARS
      ensures HoldsPast(undoRec[..], undoChar[..], z.past, z.present) && undoCharPoint == Stored(z.past)
      ensures redoPoint == RECORDS && redoCharPoint == CHARS && intact
      ensures n > CHARS ==> index == NONE && undoPoint == 0 && z == History([], old(z).present, [])
      ensures n <= CHARS ==>
                && 0 <= index == |z.past| < RECORDS && undoPoint == index + 1 && undoCharPoint + n <= CHARS
                && z == History(Trim(if |old(z).past| == RECORDS then old(z).past[1..] else old(z).past, n),
                                old(z).present, [])
    {
      hide HoldsPast, Stored;
      FlushRedo();
      if undoPoint == RECORDS {
        DiscardUndo();
      }
      if n > CHARS {
        undoPoint := 0;
        undoCharPoint := 0;
        z := z.(past := []);
        NoPast(undoRec[..], undoChar[..], z.present);
        return NONE;
      }
      ghost var kept := z.past;
      StoredFits(undoRec[..], undoChar[..], z.past, z.present);
      while undoCharPoint + n > CHARS
        invariant PastOk() && undoPoint < RECORDS
        invariant redoPoint == RECORDS && redoCharPoint == CHARS && intact
        invariant z == History(z.past, old(z).present, []) && Trim(z.past, n) == Trim(kept, n)
        decreases |z.past|
      {
        NoneStored();
        DiscardUndo();
      }
      index := undoPoint;
      undoPoint := undoPoint + 1;
    }

    /** Records that the text `after` came from the present one by replacing oldLen
        characters at pos by newLen others. */
    method CreateUndo(pos: int, oldLen: int, newLen: int, ghost after: string)
      requires PastOk() && 0 <= pos && 0 <= oldLen && 0 <= newLen
      requires pos + oldLen <= |z.present| && pos + newLen <= |after| && (oldLen > 0 ==> str == z.present)
      requires z.present == Replace(after, pos, newLen, z.present[pos..pos + oldLen])
      modifies undoRec, undoChar, this`undoPoint, this`undoCharPoint, this`redoPoint, this`redoCharPoint, this`z,
               this`intact
      ensures Holds() && intact && z == Record(old(z), after, oldLen, newLen) && z.present == after
      ensures oldLen <= CHARS ==> 0 < undoPoint <= RECORDS && undoRec[undoPoint - 1].pos == pos
    {
      hide HoldsPast, HoldsFuture, Stored, Trim, Sound, Describes, Replace;
      ghost var e := Entry(z.present, oldLen, newLen);
      var index := CreateUndoRecord(oldLen);
      if index == NONE {
        z := z.(present := after);
        NoPast(undoRec[..], undoChar[..], z.present);
        Emptied(undoRec[..], undoChar[..], z);
        return;
      }
      ghost var recs, chars := undoRec[..], undoChar[..];
      undoRec[index] := UndoRecord(pos, oldLen, newLen, if oldLen == 0 then -1 else undoCharPoint);
      StoreChars(undoCharPoint, pos, oldLen);
      undoCharPoint := undoCharPoint + oldLen;
      PastFrame(recs, chars, undoRec[..], undoChar[..], z.past, z.present);
      RecordDescribes(undoRec[index], undoChar[..], z.present, after, undoCharPoint - oldLen);
      PastPush(undoRec[..], undoChar[..], z.past, e, after);
      z := History(z.past + [e], after, []);
      Emptied(undoRec[..], undoChar[..], z);
    }

    /** Copies n characters of the text, from pos on, into the buffer. */
    method StoreChars(storage: int, pos: int, n: int)
      requires 0 <= storage && 0 <= pos && 0 <= n && storage + n <= undoChar.Length && (n > 0 ==> pos + n <= |str|)
      modifies undoChar
      ensures forall i :: 0 <= i < undoChar.Length ==>
                undoChar[i] == if storage <= i < storage + n then str[pos + i - storage] else old(undoChar[i])
    {
      for i := 0 to n
        invariant forall j :: 0 <= j < undoChar.Length ==>
                    undoChar[j] == if storage <= j < storage + i then str[pos + j - storage] else old(undoChar[j])
      {
        undoChar[storage + i] := str[pos + i];
      }
    }

    lemma NoneStored()
      requires PastOk()
      ensures undoCharPoint > 0 ==> z.past != []
      ensures forall n: nat :: n <= CHARS && undoCharPoint + n > CHARS ==>
                z.past != [] && Trim(z.past, n) == Trim(z.past[1..], n)
    {
    }

    /** The characters that the next undo takes out fit in what the records leave. */
    predicate RoomForRedo()
      requires 0 <= undoPoint <= undoRec.Length
      reads this, undoRec
    {
      undoPoint == 0 ||
      var d := undoRec[undoPoint - 1].deleteLength;
      d == 0 || (undoCharPoint + d < CHARS && undoCharPoint + d <= redoCharPoint)
    }

    /** The undo records alone leave no space for those characters. */
    predicate HasNoSpace()
      requires 0 <= undoPoint <= undoRec.Length
      reads this, undoRec
    {
      undoPoint != 0 && undoRec[undoPoint - 1].deleteLength != 0 &&
      undoCharPoint + undoRec[undoPoint - 1].deleteLength >= CHARS
    }

    /** Discards redo records until d more characters fit, or none is left.  A record that claims
        to give back more than there is leads to a block move past the end of the buffer, which
        has no defined effect: there the model stops. */
    method MakeRoom(d: int) returns (o: Outcome)
      requires Bounded() && 0 <= undoCharPoint && 0 <= d
      modifies undoRec, undoChar, this`redoPoint, this`redoCharPoint, this`z
      ensures Bounded() && z == old(z).(future := z.future)
      ensures o == old(Reclaim(Sizes(), redoCharPoint, undoCharPoint + d))
      ensures o.Room? ==> o == Room(redoPoint - old(redoPoint), redoCharPoint)
      ensures o.Refused? ==> redoPoint == RECORDS && redoCharPoint == o.charPoint
      ensures Discarded(old(undoRec[..]), old(undoChar[..]), old(redoPoint), old(redoCharPoint),
                        undoRec[..], undoChar[..], redoPoint, redoCharPoint)
      ensures redoPoint == old(redoPoint) ==> z == old(z)
      ensures old(FutureOk()) ==> FutureOk()
    {
      hide FutureOk, Reclaim, SizesOf, Discarded, Slid, MovedIn;
      ghost var need, o0 := undoCharPoint + d, Reclaim(Sizes(), redoCharPoint, undoCharPoint + d);
      ghost var recs0, chars0, rp0, rcp0 := undoRec[..], undoChar[..], redoPoint, redoCharPoint;
      NoneDiscarded(recs0, chars0, rp0, rcp0);
      var dropped := 0;
      while undoCharPoint + d > redoCharPoint
        invariant Bounded() && redoPoint == rp0 + dropped && 0 <= dropped
        invariant z == old(z).(future := z.future) && (redoPoint == rp0 ==> z == old(z))
        invariant old(FutureOk()) ==> FutureOk()
        invariant Discarded(recs0, chars0, rp0, rcp0, undoRec[..], undoChar[..], redoPoint, redoCharPoint)
        invariant var r := Reclaim(Sizes(), redoCharPoint, need);
                  o0 == if r.Room? then r.(dropped := r.dropped + dropped) else r
        decreases RECORDS - redoPoint
      {
        if redoPoint == RECORDS {
          ReclaimNone(redoCharPoint, need);
          return Refused(redoCharPoint);
        }
        ReclaimOne(Sizes(), redoCharPoint, need);
        LastSize();
        var n := Size(undoRec[RECORDS - 1]);
        if n < 0 || redoCharPoint + n > CHARS {
          return Overrun;
        }
        OneMoreDiscarded(recs0, chars0, rp0, rcp0, undoRec[..], undoChar[..], redoPoint, redoCharPoint);
        DiscardRedo();
        dropped := dropped + 1;
      }
      ReclaimDone(Sizes(), redoCharPoint, need);
      o := Room(dropped, redoCharPoint);
    }

    lemma LastSize()
      requires Bounded() && redoPoint < RECORDS
      ensures Sizes() != [] && Sizes()[|Sizes()| - 1] == Size(undoRec[RECORDS - 1])
    {
    }

    /** Makes the redo record for u right below the others, and saves the characters which u
        takes out, if there is room for them.  If redo records had to be discarded for that, the
        characters are noted in what was the first of these, and the new record is left behind. */
    method SaveChars(u: UndoRecord) returns (o: Outcome)
      requires Bounded() && 0 < redoPoint && 0 <= undoCharPoint <= redoCharPoint
      requires 0 <= u.pos && 0 <= u.deleteLength && u.pos + u.deleteLength <= |str|
      modifies undoRec, undoChar, this`redoPoint, this`redoCharPoint, this`z
      ensures Bounded() && undoCharPoint <= redoCharPoint && z == old(z).(future := z.future)
      ensures o == old(Reclaim(Sizes(), redoCharPoint, undoCharPoint + u.deleteLength))
      ensures SameBelow(old(undoRec[..]), undoRec[..], old(redoPoint) - 1)
      ensures SameBelow(old(undoChar[..]), undoChar[..], undoCharPoint)
      ensures o.Refused? ==>
                && redoPoint == RECORDS && redoCharPoint == o.charPoint
                && undoRec[old(redoPoint) - 1] == UndoRecord(u.pos, u.deleteLength, u.insertLength, -1)
      ensures o.Room? ==>
                && o == Room(redoPoint - old(redoPoint), redoCharPoint + u.deleteLength)
                && Sizes() == old(Sizes())[..RECORDS - redoPoint]
                && undoRec[redoPoint - 1].charStorage == redoCharPoint
                && (old(Naturals(undoRec[..], redoPoint)) ==> Naturals(undoRec[..], redoPoint - 1))
      ensures o.Room? ==> Stores(undoChar[..], redoCharPoint, str[u.pos..u.pos + u.deleteLength])
      ensures o.Room? && 0 < o.dropped ==>
                && old(redoPoint) < RECORDS
                && undoRec[redoPoint - 1] == old(undoRec[redoPoint]).(charStorage := redoCharPoint)
      ensures o.Room? && o.dropped == 0 ==>
                && z == old(z)
                && undoRec[..] ==
                   old(undoRec[..])[redoPoint - 1 := UndoRecord(u.pos, u.deleteLength, u.insertLength, redoCharPoint)]
                && (forall i :: old(redoCharPoint) <= i < CHARS ==> undoChar[..][i] == old(undoChar[..])[i])
                && (forall i :: redoCharPoint <= i < redoCharPoint + u.deleteLength ==>
                      undoChar[..][i] == str[u.pos + i - redoCharPoint])
    {
      hide FutureOk, Reclaim, SizesOf;
      ghost var before := undoRec[..];
      undoRec[redoPoint - 1] := UndoRecord(u.pos, u.deleteLength, u.insertLength, -1);
      SizesAbove(before, undoRec[..], redoPoint);
      o := MakeRoom(u.deleteLength);
      if !o.Room? {
        return;
      }
      ghost var recs := undoRec[..];
      undoRec[redoPoint - 1] := undoRec[redoPoint - 1].(charStorage := redoCharPoint - u.deleteLength);
      SizesAbove(recs, undoRec[..], redoPoint);
      redoCharPoint := redoCharPoint - u.deleteLength;
      StoreChars(redoCharPoint, u.pos, u.deleteLength);
      StoresIs(undoChar[..], redoCharPoint, str[u.pos..u.pos + u.deleteLength]);
    }

    /** Makes a redo record for u with no characters to put back. */
    method RecordOnly(u: UndoRecord)
      requires Bounded() && 0 < redoPoint
      modifies undoRec
      ensures undoRec[..] == old(undoRec[..])[redoPoint - 1 := UndoRecord(u.pos, 0, u.insertLength, -1)]
      ensures Sizes() == old(Sizes()) && SameBelow(old(undoRec[..]), undoRec[..], redoPoint - 1)
      ensures old(Naturals(undoRec[..], redoPoint)) ==> Naturals(undoRec[..], redoPoint - 1)
    {
      undoRec[redoPoint - 1] := UndoRecord(u.pos, u.deleteLength, u.insertLength, -1);
      if u.deleteLength != 0 {
        undoRec[redoPoint - 1] := undoRec[redoPoint - 1].(insertLength := 0);
      }
    }

    /** What the next undo comes to: how many redo records it has to discard. */
    function NextUndo(): Outcome
      requires 0 <= undoPoint <= undoRec.Length && 0 <= redoPoint <= undoRec.Length
      reads this, undoRec
    {
      if undoPoint == 0 || undoRec[undoPoint - 1].deleteLength == 0 || HasNoSpace() then Room(0, redoCharPoint)
      else Reclaim(Sizes(), redoCharPoint, undoCharPoint + undoRec[undoPoint - 1].deleteLength)
    }

    /** The redo records after the next undo, if it is not refused: what they give back. */
    function SizesAfterUndo(): seq<int>
      requires 0 < undoPoint <= undoRec.Length && 0 <= redoPoint <= undoRec.Length && NextUndo().Room?
      reads this, undoRec
    {
      [HeadAfterUndo()] + Sizes()[..|Sizes()| - NextUndo().dropped]
    }

    function HeadAfterUndo(): int
      requires 0 < undoPoint <= undoRec.Length && 0 <= redoPoint <= undoRec.Length && NextUndo().Room?
      reads this, undoRec
    {
      if NextUndo().dropped == 0 then SavedByUndo() else undoRec[redoPoint].insertLength
    }

    /** How many characters the next undo saves for its redo, if it is not refused. */
    function SavedByUndo(): int
      requires 0 < undoPoint <= undoRec.Length
      reads this, undoRec
    {
      if HasNoSpace() then 0 else undoRec[undoPoint - 1].deleteLength
    }

    /** The last undo record applies to the text. */
    predicate Undoable()
      reads this, undoRec
    {
      && 0 < undoPoint <= undoRec.Length
      && var u := undoRec[undoPoint - 1]; 0 <= u.pos && 0 <= u.deleteLength && u.pos + u.deleteLength <= |str|
    }

    /** The characters that the next undo saves. */
    function GoneByUndo(): string
      requires Undoable()
      reads this, undoRec
    {
      var u := undoRec[undoPoint - 1];
      str[u.pos..u.pos + SavedByUndo()]
    }

    /** The redo record that the next undo leaves: its own, or one it had to discard, noted with
        the place of the characters saved; or one with none to put back. */
    function RecordAfterUndo(): UndoRecord
      requires 0 < undoPoint <= undoRec.Length && 0 <= redoPoint <= undoRec.Length && NextUndo().Room?
      reads this, undoRec
    {
      var u, at := undoRec[undoPoint - 1], NextUndo().charPoint - SavedByUndo();
      if SavedByUndo() == 0 then UndoRecord(u.pos, 0, u.insertLength, -1)
      else if NextUndo().dropped == 0 then UndoRecord(u.pos, u.deleteLength, u.insertLength, at)
      else undoRec[redoPoint].(charStorage := at)
    }

    lemma RecordAfterIs()
      requires 0 < undoPoint <= undoRec.Length && 0 <= redoPoint <= undoRec.Length && NextUndo().Room?
      ensures var u, at := undoRec[undoPoint - 1], NextUndo().charPoint - SavedByUndo();
              && (0 < NextUndo().dropped ==> redoPoint < undoRec.Length)
              && RecordAfterUndo() ==
                 if SavedByUndo() == 0 then UndoRecord(u.pos, 0, u.insertLength, -1)
                 else if NextUndo().dropped == 0 then UndoRecord(u.pos, u.deleteLength, u.insertLength, at)
                 else undoRec[redoPoint].(charStorage := at)
    {
    }

    lemma NextUndoIs()
      requires 0 < undoPoint <= undoRec.Length && 0 <= redoPoint <= undoRec.Length
      ensures var d := undoRec[undoPoint - 1].deleteLength;
              && (HasNoSpace() <==> d != 0 && undoCharPoint + d >= CHARS)
              && SavedByUndo() == if d != 0 && undoCharPoint + d >= CHARS then 0 else d
      ensures var d := undoRec[undoPoint - 1].deleteLength;
              RoomForRedo() <==> (d == 0 || (undoCharPoint + d < CHARS && undoCharPoint + d <= redoCharPoint))
      ensures var d := undoRec[undoPoint - 1].deleteLength;
              var o := if d == 0 || HasNoSpace() then Room(0, redoCharPoint)
                       else Reclaim(Sizes(), redoCharPoint, undoCharPoint + d);
              && NextUndo() == o
              && (o.Room? ==>
                    && HeadAfterUndo() == (if o.dropped == 0 then SavedByUndo() else undoRec[redoPoint].insertLength)
                    && SizesAfterUndo() == [HeadAfterUndo()] + Sizes()[..|Sizes()| - o.dropped])
    {
    }

    /** How many characters the redo records claim to give back. */
    function Claimed(): int
      requires 0 <= redoPoint <= undoRec.Length
      reads this, undoRec
    {
      AllFreed(Sizes())
    }

    /** When the next undo is refused, when it goes past the end of the buffer, and what it
        discards otherwise. */
    lemma NextUndoCases()
      requires Valid() && 0 < undoPoint && !HasNoSpace() && undoRec[undoPoint - 1].deleteLength != 0
      ensures var need, o := undoCharPoint + undoRec[undoPoint - 1].deleteLength, NextUndo();
              && (o.Refused? <==> redoCharPoint + Claimed() < need)
              && (o.Overrun? <==> GoesPastEnd(Sizes(), redoCharPoint, need))
              && (o.Overrun? ==> CHARS < redoCharPoint + Claimed())
              && (o.Room? ==> o.charPoint == redoCharPoint + Freed(Sizes(), o.dropped))
              && (o.Room? ==> forall k :: 0 <= k < o.dropped ==> redoCharPoint + Freed(Sizes(), k) < need)
    {
      hide HoldsPast, HoldsFuture, Stored, Sound, Freed, Reclaim, GoesPastEnd;
      NextUndoIs();
      NaturalSizes(undoRec[..], redoPoint);
      var need := undoCharPoint + undoRec[undoPoint - 1].deleteLength;
      ReclaimIs(Sizes(), redoCharPoint, need);
      OverrunIs(Sizes(), redoCharPoint, need);
      if redoCharPoint + Claimed() <= CHARS {
        NoOverrun(Sizes(), redoCharPoint, need);
      }
    }

    /** What an undo does to the claims of the redo records: nothing, unless it has to discard.
        Then the first record, with the length it has, stands for the d characters saved. */
    lemma ClaimsAfterUndo()
      requires Valid() && 0 < undoPoint && NextUndo().Room?
      ensures var o, d := NextUndo(), undoRec[undoPoint - 1].deleteLength;
              && (0 < o.dropped ==> redoPoint < RECORDS)
              && o.charPoint - SavedByUndo() + AllFreed(SizesAfterUndo()) ==
                 redoCharPoint + Claimed() + if o.dropped == 0 then 0 else undoRec[redoPoint].insertLength - d
    {
      hide HoldsPast, HoldsFuture, Stored, Sound, Freed, AllFreed, Reclaim;
      NextUndoIs();
      var o := NextUndo();
      FreedNone(Sizes());
      FreedSplit(Sizes(), o.dropped);
      FreedCons(HeadAfterUndo(), Sizes()[..|Sizes()| - o.dropped]);
      if 0 < o.dropped {
        NaturalSizes(undoRec[..], redoPoint);
        ReclaimIs(Sizes(), redoCharPoint, undoCharPoint + undoRec[undoPoint - 1].deleteLength);
      }
    }

    /** Complete redo records claim just what the buffer holds. */
    lemma CompleteClaims()
      requires Valid() && intact
      ensures redoCharPoint + Claimed() == CHARS
    {
      hide Stored;
      SizesAreStored(undoRec[..], undoChar[..], z.future, z.present);
      StoredIsFreed(z.future, Sizes());
    }

    /** Makes the redo record for the undo record u that is about to be applied,
        and saves the characters which applying u takes out. */
    method SaveForRedo(u: UndoRecord) returns (o: Outcome)
      requires Bounded() && 0 < undoPoint <= redoPoint && 0 <= undoCharPoint <= redoCharPoint
               && u == undoRec[undoPoint - 1]
      requires 0 <= u.pos && 0 <= u.deleteLength && u.pos + u.deleteLength <= |str|
      modifies undoRec, undoChar, this`redoPoint, this`redoCharPoint, this`z
      ensures Bounded() && undoCharPoint <= redoCharPoint && z == old(z).(future := z.future)
      ensures o == old(NextUndo())
      ensures SameBelow(old(undoRec[..]), undoRec[..], old(redoPoint) - 1)
      ensures SameBelow(old(undoChar[..]), undoChar[..], undoCharPoint)
      ensures o.Refused? ==>
                && redoPoint == RECORDS && redoCharPoint == o.charPoint
                && undoRec[old(redoPoint) - 1] == UndoRecord(u.pos, u.deleteLength, u.insertLength, -1)
      ensures o.Room? ==>
                && o == Room(redoPoint - old(redoPoint), redoCharPoint + old(SavedByUndo()))
                && [Size(undoRec[redoPoint - 1])] + Sizes() == old(SizesAfterUndo())
                && (old(Naturals(undoRec[..], redoPoint)) ==> Naturals(undoRec[..], redoPoint - 1))
                && undoRec[redoPoint - 1] == old(RecordAfterUndo())
                && Stores(undoChar[..], redoCharPoint, old(GoneByUndo()))
      ensures old(RoomForRedo()) ==>
                && z == old(z) && redoPoint == old(redoPoint) && redoCharPoint == old(redoCharPoint) - u.deleteLength
                && SavedFor(u, old(undoRec[..]), old(undoChar[..]))
    {
      hide Reclaim, SizesOf, NextUndo, SizesAfterUndo, HeadAfterUndo, SavedByUndo, HasNoSpace, RoomForRedo, SavedFor,
        SameBelow, Naturals, RecordAfterUndo, Stores;
      NextUndoIs();
      if NextUndo().Room? {
        RecordAfterIs();
      }
      ghost var recs, chars := undoRec[..], undoChar[..];
      SameAsItself(chars, undoCharPoint);
      StoresIs(chars, redoCharPoint, "");
      if u.deleteLength == 0 || undoCharPoint + u.deleteLength >= CHARS {
        o := Room(0, redoCharPoint);
        RecordOnly(u);
        assert old(GoneByUndo()) == "" && undoChar[..] == chars;
        assert Sizes() == old(Sizes())[..|old(Sizes())|];
      } else {
        o := SaveChars(u);
        if !o.Room? {
          return;
        }
      }
      if old(RoomForRedo()) {
        SavedForIs(u, recs, chars);
      }
    }

    lemma SavedForIs(u: UndoRecord, recs: seq<UndoRecord>, chars: seq<char>)
      requires Bounded() && 0 < redoPoint && 0 <= u.pos && 0 <= u.deleteLength && u.pos + u.deleteLength <= |str|
      requires |recs| == RECORDS && |chars| == CHARS && redoCharPoint + u.deleteLength <= CHARS
      requires var at := if u.deleteLength == 0 then -1 else redoCharPoint;
               undoRec[..] == recs[redoPoint - 1 := UndoRecord(u.pos, u.deleteLength, u.insertLength, at)]
      requires forall i :: redoCharPoint + u.deleteLength <= i < CHARS ==> undoChar[..][i] == chars[i]
      requires forall i :: redoCharPoint <= i < redoCharPoint + u.deleteLength ==>
                 undoChar[..][i] == str[u.pos + i - redoCharPoint]
      ensures SavedFor(u, recs, chars)
    {
    }

    /** The redo record for u is in place, with the characters that u takes out, and the other
        redo records and their characters are as before. */
    ghost predicate SavedFor(u: UndoRecord, recs: seq<UndoRecord>, chars: seq<char>)
      requires Bounded() && 0 < redoPoint && 0 <= u.pos && 0 <= u.deleteLength && u.pos + u.deleteLength <= |str|
      requires |recs| == RECORDS && |chars| == CHARS && redoCharPoint + u.deleteLength <= CHARS
      reads this, undoRec, undoChar
    {
      && undoRec[redoPoint - 1] ==
         UndoRecord(u.pos, u.deleteLength, u.insertLength, if u.deleteLength == 0 then -1 else redoCharPoint)
      && (forall i :: redoPoint <= i < RECORDS ==> undoRec[..][i] == recs[i])
      && (forall i :: redoCharPoint + u.deleteLength <= i < CHARS ==> undoChar[..][i] == chars[i])
      && (forall i :: redoCharPoint <= i < redoCharPoint + u.deleteLength ==>
            undoChar[..][i] == str[u.pos + i - redoCharPoint])
    }

    /** What was saved for redo stands for the text that is about to be undone. */
    lemma SavedIsFuture(u: UndoRecord, recs: seq<UndoRecord>, chars: seq<char>)
      requires Bounded() && z.past != [] && z.present == str && |z.future| < RECORDS && Stored(z.future) <= CHARS
      requires redoPoint == RECORDS - |z.future| && redoCharPoint == CHARS - Stored(z.future) - u.deleteLength
      requires HoldsFuture(recs, chars, z.future, z.present) && |recs| == RECORDS && |chars| == CHARS
      requires var e, base := z.past[|z.past| - 1], Stored(z.past[..|z.past| - 1]);
               Describes(u, chars, e, z.present, base)
      requires 0 <= u.pos && 0 <= u.deleteLength && u.pos + u.deleteLength <= |str| && SavedFor(u, recs, chars)
      ensures HoldsFuture(undoRec[..], undoChar[..], Undo(z).future, Undo(z).present)
    {
      hide HoldsFuture, Stored, Describes, Replace;
      var e, base := z.past[|z.past| - 1], Stored(z.past[..|z.past| - 1]);
      DescribesNat(u, chars, e, z.present, base);
      FutureFrame(recs, chars, undoRec[..], undoChar[..], z.future, z.present);
      RedoDescribes(u, chars, e, z.present, base, undoRec[redoPoint - 1], undoChar[..], redoCharPoint);
      FuturePush(undoRec[..], undoChar[..], z.future, Entry(z.present, e.removed, e.stored), e.text);
    }

    /** Carries out what record r says, on the text. */
    method ApplyText(r: UndoRecord)
      requires 0 <= r.pos && 0 <= r.deleteLength && r.pos + r.deleteLength <= |str|
      requires 0 <= r.insertLength
               && (r.insertLength > 0 ==> 0 <= r.charStorage && r.charStorage + r.insertLength <= undoChar.Length)
      modifies this`str, this`cursor
      ensures str == Replace(old(str), r.pos, r.deleteLength, TextOf(r, undoChar[..]))
      ensures 0 <= cursor == r.pos + r.insertLength <= |str|
    {
      if r.deleteLength != 0 {
        str := Replace(str, r.pos, r.deleteLength, "");
      }
      if r.insertLength != 0 {
        str := Replace(str, r.pos, 0, undoChar[r.charStorage..r.charStorage + r.insertLength]);
      }
      cursor := r.pos + r.insertLength;
    }

    /** Where the cursor goes when a record is applied: behind what it puts back. */
    function CursorAfter(i: int, found: bool): int
      reads this, undoRec
    {
      if found && 0 <= i < undoRec.Length then undoRec[i].pos + undoRec[i].insertLength else cursor
    }

    /** Takes back the last edit that is on record.  The text becomes what it was before that
        edit, unless too many characters are in use for undone edits that can no longer be
        redone: then nothing is undone, now or later.  With complete redo records that does not
        happen, and they stay complete exactly if the characters taken out fit in the buffer. */
    method UndoEdit() returns (o: Outcome)
      requires Valid()
      modifies this, undoRec, undoChar
      ensures o == old(NextUndo()) && (old(intact) ==> o.Room?)
      ensures o.Room? ==>
                && Valid() && z == Undo(old(z)) && str == Undo(old(z)).present
                && cursor == old(CursorAfter(undoPoint - 1, 0 < undoPoint))
      ensures old(intact) ==> (FutureOk() <==> old(RoomForRedo())) && (old(RoomForRedo()) <==> UndoHasRoom(old(z)))
      ensures intact <==> old(intact) && old(RoomForRedo())
      ensures !o.Room? ==> str == old(str) && cursor == old(cursor) && z == old(z) && undoPoint == old(undoPoint) > 0
      ensures o.Refused? ==>
                && undoCharPoint == old(undoCharPoint) && redoPoint == RECORDS && redoCharPoint == o.charPoint
                && (Valid() <==> old(undoPoint < redoPoint))
                && (Valid() ==> NextUndo() == o)
      ensures o.Room? && 0 < old(undoPoint) ==>
                && undoPoint == old(undoPoint) - 1 && redoPoint == old(redoPoint) + o.dropped - 1
                && Sizes() == old(SizesAfterUndo())
                && redoCharPoint == o.charPoint - old(SavedByUndo())
                && redoPoint < undoRec.Length && undoRec[redoPoint] == old(RecordAfterUndo())
                && old(Undoable()) && Stores(undoChar[..], redoCharPoint, old(GoneByUndo()))
      ensures old(HasNoSpace()) ==>
                && 0 <= redoPoint < undoRec.Length && undoRec[redoPoint].insertLength == 0
                && |str| - undoRec[redoPoint].deleteLength != |old(str)|
      ensures selectStart == old(selectStart) && selectEnd == old(selectEnd)
    {
      hide HoldsPast, HoldsFuture, Stored, Sound, Describes, Replace, Reclaim, SizesOf, NextUndo, SizesAfterUndo,
        HeadAfterUndo, SavedByUndo, SavedFor, HasNoSpace, RoomForRedo, SameBelow, Naturals, PastOk, FutureOk, Holds,
        RecordAfterUndo, GoneByUndo, Stores, Undoable;
      Pieces();
      RoomIsRoom();
      CompleteIsReady();
      if undoPoint == 0 {
        NothingToUndo();
        return Room(0, redoCharPoint);
      }
      NextUndoIs();
      ghost var recs, chars := undoRec[..], undoChar[..];
      ghost var room := RoomForRedo();
      LastRecord();
      if NextUndo().Room? {
        RecordAfterIs();
      }
      var u := undoRec[undoPoint - 1];
      o := SaveForRedo(u);
      z := old(z);
      SameBelowLess(recs, undoRec[..], undoPoint - 1, old(redoPoint) - 1);
      if o.Room? {
        FinishUndo(u, recs, chars, intact && room);
      } else {
        intact := false;
        if o.Refused? {
          RefusedIs(recs, chars, u, old(redoPoint));
          SameOutcome(o, old(undoCharPoint) + u.deleteLength);
        }
      }
    }

    /** Undoes what record u stands for, after its redo record was made. */
    method FinishUndo(u: UndoRecord, ghost recs: seq<UndoRecord>, ghost chars: seq<char>, ghost complete: bool)
      requires Bounded() && |recs| == RECORDS && |chars| == CHARS
      requires HoldsPast(recs, chars, z.past, z.present) && z.past != [] && z.present == str
      requires undoPoint == |z.past| <= redoPoint && undoCharPoint == Stored(z.past) <= redoCharPoint
      requires u == recs[undoPoint - 1]
      requires SameBelow(recs, undoRec[..], undoPoint - 1) && SameBelow(chars, undoChar[..], undoCharPoint)
      requires 0 <= u.pos && 0 <= u.deleteLength && u.pos + u.deleteLength <= |str|
      requires complete ==>
                 && HoldsFuture(recs, chars, z.future, z.present) && Sound(z) && UndoHasRoom(z)
                 && redoPoint == RECORDS - |z.future| && redoCharPoint == CHARS - Stored(z.future) - u.deleteLength
                 && SavedFor(u, recs, chars)
      requires !complete && intact ==>
                 redoPoint > RECORDS - |z.future| || undoRec[redoPoint - 1].insertLength != u.deleteLength
      requires 0 <= selectStart && 0 <= selectEnd && Naturals(undoRec[..], redoPoint - 1)
      modifies this`str, this`cursor, this`undoPoint, this`undoCharPoint, this`redoPoint, this`z, this`intact
      ensures Valid() && z == Undo(old(z)) && str == z.present && cursor == u.pos + u.insertLength
      ensures |str| == |old(str)| - u.deleteLength + u.insertLength
      ensures intact == complete && (old(intact) ==> (FutureOk() <==> complete))
      ensures undoPoint == old(undoPoint) - 1 && redoPoint == old(redoPoint) - 1
      ensures Sizes() == old([Size(undoRec[redoPoint - 1])] + Sizes())
    {
      hide HoldsPast, HoldsFuture, Stored, Sound, Describes, Replace, SizesOf, SavedFor, Naturals;
      ghost var e, rest := z.past[|z.past| - 1], z.past[..|z.past| - 1];
      PastPop(recs, chars, z.past, z.present);
      DescribesNat(u, chars, e, z.present, Stored(rest));
      PastFrame(recs, chars, undoRec[..], undoChar[..], rest, e.text);
      StoredPushed(z);
      if complete {
        SoundFuture(z);
        SavedIsFuture(u, recs, chars);
      }
      DescribesFrame(u, chars, undoChar[..], e, str, Stored(rest));
      DescribesText(u, undoChar[..], e, str, Stored(rest));
      ApplyText(u);
      if u.insertLength != 0 {
        undoCharPoint := undoCharPoint - u.insertLength;
      }
      StepBack(complete);
    }

    /** What a valid state says, piece by piece. */
    lemma Pieces()
      requires Valid()
      ensures Bounded() && HoldsPast(undoRec[..], undoChar[..], z.past, z.present) && z.present == str
      ensures undoPoint == |z.past| <= redoPoint && 0 <= undoCharPoint == Stored(z.past) <= redoCharPoint
      ensures Naturals(undoRec[..], redoPoint)
      ensures 0 <= cursor && 0 <= selectStart && 0 <= selectEnd
      ensures intact ==>
                && FutureOk() && HoldsFuture(undoRec[..], undoChar[..], z.future, z.present) && Sound(z)
                && redoPoint == RECORDS - |z.future| && redoCharPoint == CHARS - Stored(z.future)
    {
    }

    lemma NothingToUndo()
      requires undoPoint == 0 && Holds()
      ensures NextUndo() == Room(0, redoCharPoint) && RoomForRedo() && !HasNoSpace() && Undo(z) == z
      ensures intact ==> FutureOk()
    {
    }

    /** The last record applies to the text. */
    lemma LastRecord()
      requires Valid() && 0 < undoPoint
      ensures Undoable()
      ensures var u := undoRec[undoPoint - 1];
              && 0 <= u.pos && 0 <= u.insertLength && 0 <= u.deleteLength == z.past[|z.past| - 1].removed
              && u.pos + u.deleteLength <= |str|
    {
      hide HoldsPast, Stored, Describes, Replace;
      PastPop(undoRec[..], undoChar[..], z.past, z.present);
      DescribesNat(undoRec[undoPoint - 1], undoChar[..], z.past[|z.past| - 1], z.present,
                   Stored(z.past[..|z.past| - 1]));
    }

    /** After a refusal the next undo comes to the same. */
    lemma SameOutcome(o: Outcome, need: int)
      requires Bounded() && redoPoint == RECORDS && 0 < undoPoint <= RECORDS
      requires o == Refused(redoCharPoint) && redoCharPoint < need
      ensures undoRec[undoPoint - 1].deleteLength > 0 && need < CHARS &&
              undoCharPoint + undoRec[undoPoint - 1].deleteLength == need
              ==> NextUndo() == o
    {
    }

    /** When the undo was refused: whether the last undo record was spared. */
    lemma RefusedIs(recs: seq<UndoRecord>, chars: seq<char>, u: UndoRecord, rp: int)
      requires Bounded() && |recs| == RECORDS && |chars| == CHARS && HoldsPast(recs, chars, z.past, z.present)
      requires 0 < undoPoint == |z.past| <= rp <= RECORDS && undoCharPoint == Stored(z.past) <= redoCharPoint
      requires u == recs[undoPoint - 1] && 0 < u.deleteLength
      requires SameBelow(recs, undoRec[..], rp - 1) && SameBelow(chars, undoChar[..], undoCharPoint)
      requires undoRec[rp - 1] == UndoRecord(u.pos, u.deleteLength, u.insertLength, -1)
      requires redoPoint == RECORDS && !intact && z.present == str && 0 <= cursor && 0 <= selectStart && 0 <= selectEnd
      ensures Valid() <==> undoPoint < rp
      ensures undoPoint < rp ==> undoRec[undoPoint - 1] == u
    {
      hide Stored, Replace;
      if undoPoint < rp {
        assert undoRec[..][undoPoint - 1] == recs[undoPoint - 1];
        PastFrame(recs, chars, undoRec[..], undoChar[..], z.past, z.present);
      } else if PastOk() {
        PastPop(undoRec[..], undoChar[..], z.past, z.present);
      }
    }

    /** Complete redo records leave room for any undo that is on record. */
    lemma CompleteIsReady()
      requires Holds()
      ensures intact ==> NextUndo().Room? && (RoomForRedo() <==> NextUndo().dropped == 0 && !HasNoSpace())
    {
      if intact && 0 < undoPoint && !HasNoSpace() {
        SizesAreStored(undoRec[..], undoChar[..], z.future, z.present);
        CompleteHasRoom(z.future, Sizes(), undoCharPoint + undoRec[undoPoint - 1].deleteLength);
      }
    }

    /** The record that was applied belongs to the redo records now. */
    method StepBack(ghost complete: bool)
      requires Bounded() && z.past != [] && Naturals(undoRec[..], redoPoint - 1)
      requires HoldsPast(undoRec[..], undoChar[..], Undo(z).past, Undo(z).present)
      requires undoPoint == |z.past| <= redoPoint
      requires undoCharPoint == Stored(Undo(z).past) <= redoCharPoint
      requires complete ==>
                 && HoldsFuture(undoRec[..], undoChar[..], Undo(z).future, Undo(z).present)
                 && redoPoint == RECORDS - |z.future| && redoCharPoint == CHARS - Stored(Undo(z).future)
                 && Sound(z) && UndoHasRoom(z)
      requires !complete && intact ==>
                 redoPoint > RECORDS - |z.future| || undoRec[redoPoint - 1].insertLength != z.past[|z.past| - 1].removed
      modifies this`undoPoint, this`redoPoint, this`z, this`intact
      ensures Holds() && z == Undo(old(z)) && intact == complete
      ensures old(intact) ==> (FutureOk() <==> complete)
      ensures undoPoint == old(undoPoint) - 1 && redoPoint == old(redoPoint) - 1
      ensures Sizes() == old([Size(undoRec[redoPoint - 1])] + Sizes())
    {
      hide HoldsPast, HoldsFuture, Stored, Sound;
      if complete {
        UndoSound(z);
      }
      undoPoint := undoPoint - 1;
      redoPoint := redoPoint - 1;
      intact := complete;
      z := Undo(z);
      FutureHead();
    }

    lemma FutureHead()
      ensures FutureOk() && z.future != [] ==> undoRec[redoPoint].insertLength == z.future[0].stored
    {
      hide Stored, Sound, Replace;
      if FutureOk() && z.future != [] {
        FutureFirst(undoRec[..], undoChar[..], z.future, z.present);
      }
    }

    lemma RoomIsRoom()
      requires Holds()
      ensures intact ==> (RoomForRedo() <==> UndoHasRoom(z))
    {
      if z.past != [] {
        PastPop(undoRec[..], undoChar[..], z.past, z.present);
      }
    }

    /** The redo record reaches neither outside the text nor outside the buffer. */
    predicate Applies(r: UndoRecord)
      reads this
    {
      && 0 <= r.pos && 0 <= r.deleteLength && r.pos + r.deleteLength <= |str|
      && 0 <= r.insertLength && (r.insertLength > 0 ==> 0 <= r.charStorage && r.charStorage + r.insertLength <= CHARS)
    }

    /** The characters that the redo takes out can be stored for its undo. */
    predicate RoomForUndo(r: UndoRecord)
      reads this
    {
      undoCharPoint + r.deleteLength <= redoCharPoint
    }

    /** Makes the undo record for the redo record r that is about to be applied,
        and saves the characters which applying r takes out, if there is room for them. */
    method SaveForUndo(r: UndoRecord)
      requires Bounded() && 0 <= undoPoint <= redoPoint < RECORDS && 0 <= undoCharPoint <= redoCharPoint && Applies(r)
      modifies undoRec, undoChar, this`undoCharPoint
      ensures var at, d := old(undoCharPoint), r.deleteLength;
              if old(RoomForUndo(r)) then
                && undoCharPoint == at + d
                && undoRec[..] ==
                   old(undoRec[..])[undoPoint := UndoRecord(r.pos, d, r.insertLength, if d == 0 then -1 else at)]
                && undoChar[..] == Stashed(old(undoChar[..]), at, str[r.pos..r.pos + d])
              else
                && undoCharPoint == at && undoChar[..] == old(undoChar[..])
                && undoRec[..] == old(undoRec[..])[undoPoint := UndoRecord(r.pos, 0, 0, -1)]
    {
      undoRec[undoPoint] := UndoRecord(r.pos, r.deleteLength, r.insertLength, -1);
      if r.deleteLength != 0 {
        if undoCharPoint + r.deleteLength > redoCharPoint {
          undoRec[undoPoint] := undoRec[undoPoint].(insertLength := 0, deleteLength := 0);
        } else {
          undoRec[undoPoint] := undoRec[undoPoint].(charStorage := undoCharPoint);
          StoreChars(undoCharPoint, r.pos, r.deleteLength);
          undoCharPoint := undoCharPoint + r.deleteLength;
        }
      }
    }

    /** The text after the next redo: the record says what is replaced, by characters which are
        read after those it takes out were stored. */
    function RedoneText(): string
      requires redoPoint < RECORDS && Holds() && Applies(undoRec[redoPoint])
      reads this, undoRec, undoChar
    {
      var r := undoRec[redoPoint];
      var gone := str[r.pos..r.pos + r.deleteLength];
      var chars := if RoomForUndo(r) then Stashed(undoChar[..], undoCharPoint, gone) else undoChar[..];
      Replace(str, r.pos, r.deleteLength, TextOf(r, chars))
    }

    /** Does the last undone edit again.  With complete redo records there is always room for
        its undo record.  With others, what the record says is done, and an undo can take it back
        if there was room; if not, the undo record is empty.  A record that reaches outside the
        text or the buffer has no defined effect: there the model stops. */
    method RedoEdit() returns (applied: bool)
      requires Valid()
      modifies this, undoRec, undoChar
      ensures applied <==> old(redoPoint == RECORDS || Applies(undoRec[redoPoint]))
      ensures intact == old(intact) && (old(redoPoint) == RECORDS ==> Valid() && z == old(z) && str == old(str))
      ensures old(intact) ==> applied && Valid() && z == Redo(old(z)) && str == Redo(old(z)).present
      ensures applied && old(redoPoint) < RECORDS ==>
                var r, room := old(undoRec[..])[old(redoPoint)], old(RoomForUndo(undoRec[redoPoint]));
                && undoPoint == old(undoPoint) + 1 && redoPoint == old(redoPoint) + 1
                && redoCharPoint == old(redoCharPoint) + r.insertLength
                && str == old(RedoneText()) && (old(intact) ==> room)
                && (room ==> z.past == old(z).past + [Entry(old(str), r.deleteLength, r.insertLength)])
                && (room && redoCharPoint <= CHARS ==> Valid())
                && (!room ==> 0 < undoPoint <= undoRec.Length && undoRec[undoPoint - 1] == UndoRecord(r.pos, 0, 0, -1))
      ensures applied ==> cursor == old(CursorAfter(redoPoint, redoPoint < RECORDS))
      ensures selectStart == old(selectStart) && selectEnd == old(selectEnd)
    {
      hide HoldsPast, HoldsFuture, Stored, Sound, Describes, Replace, TextOf, Stashed, Naturals, PastOk, FutureOk,
        Holds;
      Pieces();
      CompleteApplies();
      if redoPoint == RECORDS {
        return true;
      }
      ghost var recs, chars, text, at, room :=
        undoRec[..], undoChar[..], str, undoCharPoint, RoomForUndo(undoRec[redoPoint]);
      var r := undoRec[redoPoint];
      if !Applies(r) {
        return false;
      }
      SaveForUndo(r);
      ApplyText(r);
      FinishRedo(r, recs, chars, text, at, room);
      applied := true;
    }

    /** Moves the record that was applied to the undo records. */
    method FinishRedo(r: UndoRecord, ghost recs: seq<UndoRecord>, ghost chars: seq<char>, ghost text: string,
                      ghost at: int, ghost room: bool)
      requires Bounded() && |recs| == RECORDS && |chars| == CHARS && 0 <= r.insertLength && 0 <= r.deleteLength
      requires room ==> Replaced(recs, chars, text, r, at)
      requires room ==> undoCharPoint == at + r.deleteLength
      requires intact ==> room
      requires undoPoint <= redoPoint < RECORDS && Naturals(recs, redoPoint) && |undoRec[..]| == |recs|
      requires forall i :: 0 <= i < RECORDS && i != undoPoint ==> undoRec[..][i] == recs[i]
      requires 0 <= cursor && 0 <= selectStart && 0 <= selectEnd
      modifies this`undoPoint, this`redoPoint, this`redoCharPoint, this`z
      ensures undoPoint == old(undoPoint) + 1 && redoPoint == old(redoPoint) + 1
      ensures redoCharPoint == old(redoCharPoint) + r.insertLength
      ensures z.past == old(z).past + [Entry(text, r.deleteLength, r.insertLength)] && z.present == str
      ensures intact ==> Valid() && z == Redo(old(z))
      ensures room && redoCharPoint <= CHARS ==> Valid()
    {
      hide HoldsPast, HoldsFuture, Stored, Sound, Describes, Replace, TextOf, Stashed, Naturals, PastOk, FutureOk,
        Holds, Replaced;
      if room {
        RedoRecorded(recs, chars, text, r, at);
      }
      StillNatural(recs, undoRec[..], undoPoint, redoPoint);
      if r.insertLength != 0 {
        redoCharPoint := redoCharPoint + r.insertLength;
      }
      undoPoint := undoPoint + 1;
      redoPoint := redoPoint + 1;
      z := History(z.past + [Entry(text, r.deleteLength, r.insertLength)], str,
                   if intact then z.future[1..] else z.future);
      if room && redoCharPoint <= CHARS {
        Assembled();
      }
    }

    /** Record r was applied to the text, and its undo record made with the characters it took out. */
    ghost predicate Replaced(recs: seq<UndoRecord>, chars: seq<char>, text: string, r: UndoRecord, at: int)
      reads this, undoRec, undoChar
    {
      && Bounded() && |recs| == RECORDS && |chars| == CHARS
      && HoldsPast(recs, chars, z.past, z.present) && z.present == text
      && undoPoint == |z.past| < RECORDS && 0 <= at == Stored(z.past)
      && undoPoint <= redoPoint < RECORDS && r == recs[redoPoint]
      && 0 <= r.pos && 0 <= r.deleteLength && r.pos + r.deleteLength <= |text| && at + r.deleteLength <= redoCharPoint
      && 0 <= r.insertLength && (r.insertLength > 0 ==> 0 <= r.charStorage && r.charStorage + r.insertLength <= CHARS)
      && undoRec[..] == recs[undoPoint := UndoRecord(r.pos, r.deleteLength, r.insertLength,
                                                     if r.deleteLength == 0 then -1 else at)]
      && undoChar[..] == Stashed(chars, at, text[r.pos..r.pos + r.deleteLength])
      && str == Replace(text, r.pos, r.deleteLength, TextOf(r, undoChar[..]))
      && (intact ==>
            && z.future != [] && HoldsFuture(recs, chars, z.future, z.present) && Sound(z)
            && redoPoint == RECORDS - |z.future| && redoCharPoint == CHARS - Stored(z.future)
            && r.deleteLength == z.future[0].removed && r.insertLength == z.future[0].stored)
    }

    /** After an undo that saved characters: its redo puts in as many of them, from the first on,
        as the record in their place says, if there are that many. */
    lemma NextRedoPutsIn(gone: string)
      requires Valid() && redoPoint < RECORDS && Applies(undoRec[redoPoint])
      requires undoRec[redoPoint].charStorage == redoCharPoint && Stores(undoChar[..], redoCharPoint, gone)
      requires undoRec[redoPoint].insertLength <= |gone|
      ensures var r := undoRec[redoPoint]; RedoneText() == Replace(str, r.pos, r.deleteLength, gone[..r.insertLength])
    {
      hide HoldsPast, HoldsFuture, Stored, Sound, Replace, TextOf, Stashed, Stores, FutureOk;
      var r, chars := undoRec[redoPoint], undoChar[..];
      if RoomForUndo(r) {
        StashedElsewhere(chars, undoCharPoint, str[r.pos..r.pos + r.deleteLength], redoCharPoint, gone);
        ReadBack(r, Stashed(chars, undoCharPoint, str[r.pos..r.pos + r.deleteLength]), gone);
      } else {
        ReadBack(r, chars, gone);
      }
    }

    /** The pieces of a valid state, put together. */
    lemma Assembled()
      requires Bounded() && HoldsPast(undoRec[..], undoChar[..], z.past, z.present) && z.present == str
      requires undoPoint == |z.past| <= redoPoint && undoCharPoint == Stored(z.past) <= redoCharPoint
      requires Naturals(undoRec[..], redoPoint)
      requires 0 <= cursor && 0 <= selectStart && 0 <= selectEnd
      requires intact ==>
                 && HoldsFuture(undoRec[..], undoChar[..], z.future, z.present) && Sound(z)
                 && redoPoint == RECORDS - |z.future| && redoCharPoint == CHARS - Stored(z.future)
      ensures Valid()
    {
    }

    /** With room, the buffers stand for the history one step on. */
    lemma RedoRecorded(recs: seq<UndoRecord>, chars: seq<char>, text: string, r: UndoRecord, at: int)
      requires Replaced(recs, chars, text, r, at)
      ensures undoPoint == |z.past| && undoPoint + 1 <= redoPoint + 1 <= RECORDS
      ensures at + r.deleteLength <= redoCharPoint && z.present == text
      ensures intact ==>
                && z.future != [] && redoPoint == RECORDS - |z.future| && redoCharPoint == CHARS - Stored(z.future)
                && r.deleteLength == z.future[0].removed && r.insertLength == z.future[0].stored
      ensures var past := z.past + [Entry(text, r.deleteLength, r.insertLength)];
              HoldsPast(undoRec[..], undoChar[..], past, str) && Stored(past) == at + r.deleteLength
      ensures intact ==>
                && HoldsFuture(undoRec[..], undoChar[..], z.future[1..], str) && str == Redo(z).present
                && Sound(Redo(z)) && Stored(z.future[1..]) == Stored(z.future) - r.insertLength
                && Stored(Redo(z).past) + Stored(z.future[1..]) <= CHARS
    {
      hide HoldsPast, HoldsFuture, Stored, Sound, Describes, Replace, TextOf, Stashed;
      var put, gone := TextOf(r, undoChar[..]), text[r.pos..r.pos + r.deleteLength];
      PushReplaced(recs, chars, z.past, text, r.pos, r.deleteLength, put);
      if intact {
        FutureRest(recs, chars, z, at, undoRec[undoPoint], undoPoint, gone);
        DescribesText(r, undoChar[..], z.future[0], text, redoCharPoint);
        RedoSound(z);
        SoundFits(Redo(z));
        StoredPopped(z);
      }
    }

    /** Complete redo records apply, and leave room, as the undo records that they were made of did. */
    lemma CompleteApplies()
      requires Valid()
      ensures intact ==> FutureOk() && (redoPoint < RECORDS <==> z.future != [])
      ensures intact && z.future != [] ==>
                && Applies(undoRec[redoPoint]) && RoomForUndo(undoRec[redoPoint])
                && undoRec[redoPoint].insertLength == z.future[0].stored
                && undoRec[redoPoint].deleteLength == z.future[0].removed
      ensures redoPoint < RECORDS ==> undoPoint < RECORDS && |z.past| < RECORDS
    {
      hide HoldsPast, HoldsFuture, Stored, Describes, Replace;
      if intact && z.future != [] {
        FuturePop(undoRec[..], undoChar[..], z.future, z.present);
        RedoSound(z);
        DescribesNat(undoRec[redoPoint], undoChar[..], z.future[0], z.present, redoCharPoint);
        DescribesText(undoRec[redoPoint], undoChar[..], z.future[0], z.present, redoCharPoint);
      }
    }

    // ----- edits ---------------------------------------------------------------

    predicate HasSelection()
      reads this
    {
      selectStart != selectEnd
    }

    /** Both ends of the selection, and the cursor, lie within the text. */
    predicate Clamped()
      reads this
    {
      cursor <= |str| && (HasSelection() ==> selectStart <= |str| && selectEnd <= |str|)
    }

    /** Makes cursor and selection fit the text. */
    method Clamp()
      requires Valid()
      modifies this`selectStart, this`selectEnd, this`cursor
      ensures Valid() && Clamped()
      ensures old(Clamped()) ==> cursor == old(cursor) && selectStart == old(selectStart) && selectEnd == old(selectEnd)
      ensures if old(HasSelection())
              then selectStart == AtMost(old(selectStart), |str|) && selectEnd == AtMost(old(selectEnd), |str|)
              else selectStart == old(selectStart) && selectEnd == old(selectEnd)
      ensures cursor == if old(HasSelection()) && !HasSelection() then |str| else AtMost(old(cursor), |str|)
    {
      hide HoldsPast, HoldsFuture, Sound, Stored;
      var n := |str|;
      if HasSelection() {
        selectStart := AtMost(selectStart, n);
        selectEnd := AtMost(selectEnd, n);
        if selectStart == selectEnd {
          cursor := selectStart;
        }
      }
      cursor := AtMost(cursor, n);
    }

    /** Deletes n characters at pos, on record. */
    method DeleteChars(pos: int, n: int)
      requires Valid() && 0 <= pos && 0 <= n && pos + n <= |str|
      modifies this`str, this`undoPoint, this`undoCharPoint, this`redoPoint, this`redoCharPoint, this`z, this`intact,
               undoRec, undoChar
      ensures Valid() && intact && z == Deletion(old(z), pos, n) && str == Replace(old(str), pos, n, "")
    {
      hide HoldsPast, HoldsFuture, Sound, Stored, Trim;
      CreateUndo(pos, n, 0, Replace(str, pos, n, ""));
      str := Replace(str, pos, n, "");
    }

    /** Inserts text at pos; the record is made afterwards. */
    method InsertText(pos: int, text: string)
      requires Valid() && 0 <= pos <= |str|
      modifies this`str, this`undoPoint, this`undoCharPoint, this`redoPoint, this`redoCharPoint, this`z, this`intact,
               undoRec, undoChar
      ensures Valid() && intact && z == Insertion(old(z), pos, text) && str == Replace(old(str), pos, 0, text)
      ensures 0 < undoPoint <= RECORDS && undoRec[undoPoint - 1].pos == pos
    {
      hide HoldsPast, HoldsFuture, Sound, Stored, Trim;
      str := Replace(str, pos, 0, text);
      CreateUndo(pos, 0, |text|, str);
    }

    /** Deletes the selected text. */
    method DeleteSelection()
      requires Valid()
      modifies this, undoRec, undoChar
      ensures Valid() && Clamped() && !HasSelection() && insertMode == old(insertMode) && singleLine == old(singleLine)
      ensures var (lo, hi) := Selected(old(selectStart), old(selectEnd), |old(str)|);
              if lo < hi then intact && z == Deletion(old(z), lo, hi - lo) && cursor == lo
              else intact == old(intact) && z == old(z) &&
                   cursor == if old(HasSelection()) then |str| else AtMost(old(cursor), |str|)
    {
      hide HoldsPast, HoldsFuture, Sound, Stored, Record;
      Clamp();
      if HasSelection() {
        if selectStart < selectEnd {
          DeleteChars(selectStart, selectEnd - selectStart);
          cursor := selectStart;
          selectEnd := selectStart;
        } else {
          DeleteChars(selectEnd, selectStart - selectEnd);
          cursor := selectEnd;
          selectStart := selectEnd;
        }
      }
    }

    /** Deletes the selection, if there is one. */
    method Cut() returns (done: bool)
      requires Valid()
      modifies this, undoRec, undoChar
      ensures Valid() && done == old(HasSelection()) && !HasSelection()
      ensures var (lo, hi) := Selected(old(selectStart), old(selectEnd), |old(str)|);
              if lo < hi then z == Deletion(old(z), lo, hi - lo) && cursor == lo
              else z == old(z) && (!done ==> cursor == old(cursor))
    {
      hide HoldsPast, HoldsFuture, Sound, Stored, Record;
      done := HasSelection();
      if done {
        DeleteSelection();
      }
    }

    /** Replaces the selection by text: two steps on record, if something is selected. */
    method Paste(text: string)
      requires Valid()
      modifies this, undoRec, undoChar
      ensures Valid() && intact && !HasSelection()
      ensures var (lo, hi) := Selected(old(selectStart), old(selectEnd), |old(str)|);
              if lo < hi then z == Insertion(Deletion(old(z), lo, hi - lo), lo, text) && cursor == lo + |text|
              else
                var c := if old(HasSelection()) then |old(str)| else AtMost(old(cursor), |old(str)|);
                z == Insertion(old(z), c, text) && cursor == c + |text|
    {
      hide HoldsPast, HoldsFuture, Sound, Stored, Record;
      Clamp();
      DeleteSelection();
      InsertText(cursor, text);
      cursor := cursor + |text|;
    }

    /** A typed character: over the one at the cursor, or in place of the selection. */
    method TypeChar(ch: char)
      requires Valid()
      modifies this, undoRec, undoChar
      ensures Valid() && insertMode == old(insertMode) && singleLine == old(singleLine)
      ensures if ch == '\n' && old(singleLine) then z == old(z) && intact == old(intact) && cursor == old(cursor)
              else if old(insertMode && !HasSelection() && cursor < |str|) then
                intact && z == Overwrite(old(z), old(cursor), ch) && cursor == old(cursor) + 1
              else
                var (lo, hi) := Selected(old(selectStart), old(selectEnd), |old(str)|);
                intact &&
                if lo < hi then z == Insertion(Deletion(old(z), lo, hi - lo), lo, [ch]) && cursor == lo + 1
                else
                  var c := if old(HasSelection()) then |old(str)| else AtMost(old(cursor), |old(str)|);
                  z == Insertion(old(z), c, [ch]) && cursor == c + 1
    {
      hide HoldsPast, HoldsFuture, Sound, Stored, Record;
      if ch == '\n' && singleLine {
        return;
      }
      if insertMode && !HasSelection() && cursor < |str| {
        var after := Replace(Replace(str, cursor, 1, ""), cursor, 0, [ch]);
        assert after == Replace(str, cursor, 1, [ch]);
        CreateUndo(cursor, 1, 1, after);
        str := after;
        cursor := cursor + 1;
      } else {
        DeleteSelection();
        InsertText(cursor, [ch]);
        cursor := cursor + 1;
      }
    }

    /** The delete key. */
    method KeyDelete()
      requires Valid()
      modifies this, undoRec, undoChar
      ensures Valid()
      ensures var (lo, hi) := Selected(old(selectStart), old(selectEnd), |old(str)|);
              if lo < hi then z == Deletion(old(z), lo, hi - lo) && cursor == lo && !HasSelection()
              else if old(HasSelection()) then z == old(z) && cursor == |str|
              else
                z == (if old(cursor < |str|) then Deletion(old(z), old(cursor), 1) else old(z)) && cursor == old(cursor)
    {
      hide HoldsPast, HoldsFuture, Sound, Stored, Record;
      if HasSelection() {
        DeleteSelection();
      } else if cursor < |str| {
        DeleteChars(cursor, 1);
      }
    }

    /** The backspace key. */
    method KeyBackspace()
      requires Valid()
      modifies this, undoRec, undoChar
      ensures Valid()
      ensures var (lo, hi) := Selected(old(selectStart), old(selectEnd), |old(str)|);
              if lo < hi then z == Deletion(old(z), lo, hi - lo) && cursor == lo && !HasSelection()
              else if old(HasSelection()) then z == old(z) && cursor == |str|
              else
                var c := AtMost(old(cursor), |old(str)|);
                if 0 < c then z == Deletion(old(z), c - 1, 1) && cursor == c - 1 else z == old(z) && cursor == c
    {
      hide HoldsPast, HoldsFuture, Sound, Stored, Record;
      if HasSelection() {
        DeleteSelection();
      } else {
        Clamp();
        if cursor > 0 {
          DeleteChars(cursor - 1, 1);
          cursor := cursor - 1;
        }
      }
    }
  }

  // ----- an undo that is refused ---------------------------------------------

  /** Nothing is stored for undo, and what the redo records give back is known. */
  ghost predicate Counts(s: TextEditState, z: History, sizes: seq<int>, charPoint: int)
    reads s, s.undoRec, s.undoChar
  {
    && s.Valid() && s.z == z && s.undoCharPoint == 0 && s.redoCharPoint == charPoint && s.undoPoint < s.redoPoint
    && s.Sizes() == sizes
  }

  /** Puts a text in at the front. */
  method PutIn(s: TextEditState, text: string)
    requires s.Valid() && s.intact && Stored(s.z.past) == 0 && |s.z.past| < 9
    modifies s, s.undoRec, s.undoChar
    ensures s.intact && Stored(s.z.past) == 0
    ensures var e := Entry(old(s.z).present, 0, |text|);
            Counts(s, History(old(s.z).past + [e], text + old(s.z).present, []), [], CHARS)
    ensures 0 < s.undoPoint <= RECORDS && s.undoRec[s.undoPoint - 1].pos == 0
  {
    hide TextEditState.Holds;
    ghost var past, e := s.z.past, Entry(s.z.present, 0, |text|);
    s.InsertText(0, text);
    StoredConcat(past, [e]);
    assert Trim(past, 0) == past;
    Idle(s);
  }

  lemma Idle(s: TextEditState)
    requires s.Valid() && s.intact && s.z.future == [] && |s.z.past| < 10
    ensures s.redoPoint == RECORDS && s.redoCharPoint == CHARS && s.Sizes() == [] && s.undoPoint < s.redoPoint
    ensures s.undoCharPoint == Stored(s.z.past)
  {
    hide HoldsPast, HoldsFuture;
  }

  /** What the next undo comes to when it takes out d characters. */
  lemma Next(s: TextEditState, z: History, sizes: seq<int>, charPoint: int, d: nat)
    requires Counts(s, z, sizes, charPoint) && z.past != [] && z.past[|z.past| - 1].removed == d && 0 < d < CHARS
    ensures s.NextUndo() == Reclaim(sizes, charPoint, d)
  {
    hide HoldsPast, HoldsFuture, Stored, Sound, Reclaim, SizesOf, TextEditState.NextUndo;
    s.Pieces();
    s.LastRecord();
    s.NextUndoIs();
  }

  /** Takes the last text out again, or tries to. */
  method TakeOut(s: TextEditState, ghost z: History, ghost sizes: seq<int>, ghost charPoint: int, ghost d: nat)
    requires Counts(s, z, sizes, charPoint) && z.past != [] && z.past[|z.past| - 1].removed == d
    requires z.past[|z.past| - 1].stored == 0 && 0 < d < CHARS && (sizes != [] ==> 0 < sizes[0])
    modifies s, s.undoRec, s.undoChar
    ensures var o := Reclaim(sizes, charPoint, d);
            && (o.Room? ==>
                  Counts(s, Undo(z), [if o.dropped == 0 then d else sizes[0]] + sizes[..|sizes| - o.dropped],
                         o.charPoint - d))
            && (o.Refused? ==> s.Valid() && s.z == z && s.NextUndo() == o)
            && (o.Room? ==>
                  && 0 < old(s.undoPoint) <= s.undoRec.Length && 0 <= s.redoPoint < s.undoRec.Length
                  && (o.dropped == 0 ==>
                        var pos := old(s.undoRec[s.undoPoint - 1].pos);
                        s.undoRec[s.redoPoint] == UndoRecord(pos, d, 0, s.redoCharPoint))
                  && (0 < o.dropped ==>
                        0 <= old(s.redoPoint) < s.undoRec.Length &&
                        s.undoRec[s.redoPoint] == old(s.undoRec[s.redoPoint]).(charStorage := s.redoCharPoint))
                  && (|old(s.str)| == d ==> Stores(s.undoChar[..], s.redoCharPoint, old(s.str))))
  {
    hide HoldsPast, HoldsFuture, Stored, Sound, Reclaim, SizesOf, TextEditState.NextUndo, TextEditState.SizesAfterUndo,
      TextEditState.HeadAfterUndo, TextEditState.SavedByUndo, TextEditState.HasNoSpace, TextEditState.RoomForRedo,
      TextEditState.RecordAfterUndo;
    s.Pieces();
    s.LastRecord();
    LastLength(s);
    s.NextUndoIs();
    if s.NextUndo().Room? {
      s.RecordAfterIs();
      assert |s.str| == d ==> s.GoneByUndo() == s.str;
    }
    FirstSize(s);
    StoredPushed(s.z);
    var _ := s.UndoEdit();
  }

  lemma LastLength(s: TextEditState)
    requires s.Valid() && 0 < s.undoPoint
    ensures s.undoRec[s.undoPoint - 1].insertLength == s.z.past[|s.z.past| - 1].stored
  {
    hide HoldsPast, Stored, Describes, Replace;
    PastPop(s.undoRec[..], s.undoChar[..], s.z.past, s.z.present);
    DescribesNat(s.undoRec[s.undoPoint - 1], s.undoChar[..], s.z.past[|s.z.past| - 1], s.z.present,
                 Stored(s.z.past[..|s.z.past| - 1]));
  }

  lemma FirstSize(s: TextEditState)
    requires s.Bounded()
    ensures s.Sizes() != [] <==> s.redoPoint < RECORDS
    ensures s.redoPoint < RECORDS && 0 < s.Sizes()[0] ==> s.undoRec[s.redoPoint].insertLength == s.Sizes()[0]
  {
  }

  /** A run in which an undo is refused: three texts of 950, 600 and 500 characters are put in,
      and two of them taken out.  The first of these undos leaves 500 characters for its redo; the
      second has to discard them for its own 600, which are noted as 500; so the third one gets
      back too few for its 950, and nothing is undone any more. */
  method UndoIsRefused(a: string, b: string, c: string) returns (s: TextEditState)
    requires |a| == 950 && |b| == 600 && |c| == 500
    ensures fresh(s) && s.Valid() && s.str == a && s.z.past == [Entry("", 0, 950)]
    ensures s.NextUndo() == Refused(899)
  {
    hide TextEditState.Holds, TextEditState.Sizes, TextEditState.NextUndo;
    s := new TextEditState();
    PutIn(s, a);
    PutIn(s, b);
    PutIn(s, c);
    assert Reclaim([], 999, 500) == Room(0, 999);
    TakeOut(s, s.z, [], 999, 500);
    assert Reclaim([], 999, 600) == Room(0, 999) && Reclaim([500], 499, 600) == Room(1, 999);
    TakeOut(s, s.z, [500], 499, 600);
    assert Reclaim([], 899, 950) == Refused(899) && Reclaim([500], 399, 950) == Refused(899);
    TakeOut(s, s.z, [500], 399, 950);
  }

  /** A run after which the redo records claim too much: texts of 750, 300 and 800 characters are
      put in, and two taken out.  The 300 of the second undo are noted as 800, so that the third
      undo would move its block past the end of the buffer. */
  method UndoOverruns(a: string, b: string, c: string) returns (s: TextEditState)
    requires |a| == 750 && |b| == 300 && |c| == 800
    ensures fresh(s) && s.Valid() && s.str == a && s.z.past == [Entry("", 0, 750)]
    ensures s.NextUndo() == Overrun
  {
    hide TextEditState.Holds, TextEditState.Sizes, TextEditState.NextUndo;
    s := new TextEditState();
    PutIn(s, a);
    PutIn(s, b);
    PutIn(s, c);
    assert Reclaim([], 999, 800) == Room(0, 999);
    TakeOut(s, s.z, [], 999, 800);
    assert Reclaim([], 999, 300) == Room(0, 999) && Reclaim([800], 199, 300) == Room(1, 999);
    TakeOut(s, s.z, [800], 199, 300);
    assert Reclaim([800], 699, 750) == Overrun;
    Next(s, s.z, [800], 699, 750);
  }

  /** What a redo after a discard shows: texts of 600 and 500 characters are put in, and both are
      taken out; the second undo notes its 600 characters as 500, and so the redo that should show
      the first text shows 500 characters of it. */
  method RedoIsCutOff(b: string, c: string) returns (s: TextEditState)
    requires |b| == 600 && |c| == 500
    ensures fresh(s) && s.Valid() && s.str == b[..500]
  {
    hide TextEditState.Holds, TextEditState.Sizes, TextEditState.NextUndo, TextEditState.RedoneText, Replace, Stores;
    s := new TextEditState();
    PutIn(s, b);
    assert s.str == b + "" == b;
    PutIn(s, c);
    assert Reclaim([], 999, 500) == Room(0, 999);
    TakeOut(s, s.z, [], 999, 500);
    assert s.undoRec[s.redoPoint].(charStorage := 0) == UndoRecord(0, 500, 0, 0);
    assert s.str == b;
    assert Reclaim([], 999, 600) == Room(0, 999) && Reclaim([500], 499, 600) == Room(1, 999);
    TakeOut(s, s.z, [500], 499, 600);
    assert s.undoRec[s.redoPoint] == UndoRecord(0, 500, 0, s.redoCharPoint) && s.str == "";
    s.Pieces();
    s.NextRedoPutsIn(b);
    var _ := s.RedoEdit();
    ReplaceAll(b[..500]);
  }

  lemma ReplaceAll(put: string)
    ensures Replace("", 0, 0, put) == put
  {
  }

  /** Putting a text in and taking it out again: it can be redone if and only if it is shorter
      than 999 characters, one less than the buffer holds. */
  method PutInTakeOut(a: string) returns (s: TextEditState)
    requires a != ""
    ensures fresh(s) && s.Valid() && s.str == ""
    ensures s.intact <==> |a| < 999
  {
    hide TextEditState.Holds, TextEditState.Sizes, TextEditState.NextUndo;
    s := new TextEditState();
    PutIn(s, a);
    s.RoomIsRoom();
    var _ := s.UndoEdit();
  }
}
