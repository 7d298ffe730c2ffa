/** A written block, scanned: what the cursor sees and where it stops. */
module BlockRoundTrip {
  import opened Options
  import opened Bytes
  import opened BlockFormat
  import opened BlockLayout

  // --- the cursor over a written block -----------------------------------------------------------------------------

  ghost predicate Writable(entries: seq<Entry>) {
    forall i :: 0 <= i < |entries| ==> Fits(entries[i])
  }

  /** Piece `i` reads back as entry `i`, given the key before it when it is a difference. */
  ghost predicate PieceReads(pieces: seq<Bytes>, entries: seq<Entry>, i: nat)
    requires i < |pieces| == |entries|
  {
    forall tail ::
      (if i % RESTART_INTERVAL == 0 then ReadFull(pieces[i] + tail)
          else ReadDelta(pieces[i] + tail, entries[i - 1].key))
      == Read(Some(entries[i]), |pieces[i]|)
  }

  ghost predicate Reads(pieces: seq<Bytes>, entries: seq<Entry>) {
    |pieces| == |entries| && Solid(pieces) && forall i :: 0 <= i < |entries| ==> PieceReads(pieces, entries, i)
  }

  lemma PieceIsRead(entries: seq<Entry>, i: nat)
    requires Writable(entries) && i < |entries|
    ensures PieceReads(EncodeEntries(entries), entries, i) && EncodeEntries(entries)[i] != []
  {
    var piece := EncodeEntries(entries)[i];
    assert Fits(entries[i]);
    if i % RESTART_INTERVAL == 0 {
      forall tail ensures ReadFull(piece + tail) == Read(Some(entries[i]), |piece|) {
        FullReads(entries[i], tail);
      }
    } else {
      assert Fits(entries[i - 1]);
      forall tail ensures ReadDelta(piece + tail, entries[i - 1].key) == Read(Some(entries[i]), |piece|) {
        DeltaReads(entries[i - 1].key, entries[i], tail);
      }
    }
  }

  lemma EncodingReads(entries: seq<Entry>)
    requires Writable(entries)
    ensures Reads(EncodeEntries(entries), entries)
  {
    var pieces := EncodeEntries(entries);
    forall i | 0 <= i < |entries| ensures PieceReads(pieces, entries, i) && pieces[i] != [] {
      PieceIsRead(entries, i);
    }
  }

  /** The cursor stands before entry `i` and, when that one is a difference, holds the entry before it. */
  ghost predicate Before(pieces: seq<Bytes>, entries: seq<Entry>, c: Cursor, i: nat) {
    && i <= |entries| == |pieces| && c.pos == Offset(pieces, i) && c.current.Some?
    && (i % RESTART_INTERVAL != 0 ==> c.current.value == entries[i - 1])
  }

  lemma NextDecodes(hash: Hash, pieces: seq<Bytes>, entries: seq<Entry>, c: Cursor, i: nat)
    requires Reads(pieces, entries) && Before(pieces, entries, c, i) && i < |entries|
    ensures ReadNext(ReaderOf(hash, pieces), c) == Read(Some(entries[i]), |pieces[i]|)
    ensures Offset(pieces, i + 1) == Offset(pieces, i) + |pieces[i]|
  {
    assert PieceReads(pieces, entries, i);
    var tail := PieceAt(hash, pieces, i);
    OffsetStep(pieces, i);
    RestartMember(pieces, |pieces|, i);
  }

  lemma RestartDecodes(hash: Hash, pieces: seq<Bytes>, entries: seq<Entry>, i: nat)
    requires Reads(pieces, entries) && i < |entries| && i % RESTART_INTERVAL == 0
    ensures Restart(ReaderOf(hash, pieces), Offset(pieces, i)) == Cursor(Offset(pieces, i), Some(entries[i]))
  {
    assert PieceReads(pieces, entries, i);
    var tail := PieceAt(hash, pieces, i);
  }

  /** SeekToFirst shows the first entry without moving past it. */
  lemma FirstDecodes(hash: Hash, pieces: seq<Bytes>, entries: seq<Entry>, c: Cursor)
    requires Reads(pieces, entries) && entries != []
    ensures First(ReaderOf(hash, pieces), c) == Cursor(0, Some(entries[0]))
  {
    LastRestart(pieces, |pieces|);
    RestartDecodes(hash, pieces, entries, 0);
  }

  lemma StopsAtEnd(hash: Hash, pieces: seq<Bytes>, c: Cursor)
    requires c.pos == Offset(pieces, |pieces|)
    ensures ReadNext(ReaderOf(hash, pieces), c) == Read(None, 0)
  {
    DataEndsThere(hash, pieces);
  }

  /** Before entry `i` the step reads that entry, and at the end it reads nothing. */
  ghost predicate Steps(read: Stepper, pieces: seq<Bytes>, entries: seq<Entry>) {
    && |pieces| == |entries|
    && (forall c, i: nat :: Before(pieces, entries, c, i) && i < |entries| ==>
          read(c) == Read(Some(entries[i]), |pieces[i]|) && Offset(pieces, i + 1) == c.pos + |pieces[i]|)
    && (forall c :: Before(pieces, entries, c, |entries|) ==> read(c) == Read(None, 0))
  }

  lemma BlockSteps(hash: Hash, pieces: seq<Bytes>, entries: seq<Entry>)
    requires Reads(pieces, entries)
    ensures Steps(StepperOf(ReaderOf(hash, pieces)), pieces, entries)
    ensures Progresses(StepperOf(ReaderOf(hash, pieces)), DataEnd(ReaderOf(hash, pieces)))
  {
    var read := StepperOf(ReaderOf(hash, pieces));
    StepperProgresses(ReaderOf(hash, pieces));
    forall c, i: nat | Before(pieces, entries, c, i) && i < |entries|
      ensures read(c) == Read(Some(entries[i]), |pieces[i]|) && Offset(pieces, i + 1) == c.pos + |pieces[i]|
    {
      NextDecodes(hash, pieces, entries, c, i);
    }
    forall c | Before(pieces, entries, c, |entries|) ensures read(c) == Read(None, 0) {
      StopsAtEnd(hash, pieces, c);
    }
  }

  lemma {:induction false} RunDecodes(read: Stepper, end: int, pieces: seq<Bytes>, entries: seq<Entry>, c: Cursor,
      i: nat)
    requires Steps(read, pieces, entries) && Progresses(read, end) && Before(pieces, entries, c, i)
    requires i == |entries| ==> i > 0 && c.current == Some(entries[i - 1])
    ensures RunToEnd(read, end, c) == Cursor(Offset(pieces, |pieces|), Some(entries[|entries| - 1]))
    decreases |entries| - i
  {
    if i < |entries| {
      RunDecodes(read, end, pieces, entries, Cursor(Offset(pieces, i + 1), Some(entries[i])), i + 1);
    }
  }

  lemma LastRestartDecodes(hash: Hash, pieces: seq<Bytes>, entries: seq<Entry>, i: nat)
    requires Reads(pieces, entries) && entries != [] && i == |entries| - 1 - (|entries| - 1) % RESTART_INTERVAL
    ensures var r := ReaderOf(hash, pieces);
      && r.restartPoints != []
      && Restart(r, r.restartPoints[|r.restartPoints| - 1]) == Cursor(Offset(pieces, i), Some(entries[i]))
      && i % RESTART_INTERVAL == 0
  {
    RoundsDown(|entries| - 1);
    LastRestart(pieces, |pieces|);
    RestartDecodes(hash, pieces, entries, i);
  }

  lemma RoundsDown(n: nat)
    ensures 0 <= n - n % RESTART_INTERVAL <= n && (n - n % RESTART_INTERVAL) % RESTART_INTERVAL == 0
  {
  }

  lemma LastIs(r: Reader, c: Cursor, start: Cursor)
    requires r.restartPoints != [] && Restart(r, r.restartPoints[|r.restartPoints| - 1]) == start && start.current.Some?
    ensures Progresses(StepperOf(r), DataEnd(r)) && Last(r, c) == RunToEnd(StepperOf(r), DataEnd(r), start)
  {
    StepperProgresses(r);
  }

  /** SeekToLast lands on the last entry, however many restart intervals there are. */
  lemma LastDecodes(hash: Hash, pieces: seq<Bytes>, entries: seq<Entry>, c: Cursor)
    requires Reads(pieces, entries) && entries != []
    ensures Last(ReaderOf(hash, pieces), c) == Cursor(Offset(pieces, |pieces|), Some(entries[|entries| - 1]))
  {
    var i, r := |entries| - 1 - (|entries| - 1) % RESTART_INTERVAL, ReaderOf(hash, pieces);
    var start := Cursor(Offset(pieces, i), Some(entries[i]));
    LastRestartDecodes(hash, pieces, entries, i);
    LastIs(r, c, start);
    BlockSteps(hash, pieces, entries);
    RunDecodes(StepperOf(r), DataEnd(r), pieces, entries, start, i);
  }

  /** The entries seen from the cursor on, by calling Next until nothing is left or a call panics. */
  ghost function Visited(read: Stepper, end: int, c: Cursor): seq<Entry>
    requires Progresses(read, end)
    decreases c.current.Some? && !c.panicked, end - c.pos
  {
    if c.current.None? || c.panicked then [] else [c.current.value] + Visited(read, end, Next(read, c))
  }

  /** No call of Next from the cursor on panics. */
  ghost predicate Calm(read: Stepper, end: int, c: Cursor)
    requires Progresses(read, end)
    decreases c.current.Some? && !c.panicked, end - c.pos
  {
    !c.panicked && (c.current.None? || Calm(read, end, Next(read, c)))
  }

  lemma VisitedStep(read: Stepper, end: int, c: Cursor)
    requires Progresses(read, end) && c.current.Some? && !c.panicked
    ensures Visited(read, end, c) == [c.current.value] + Visited(read, end, Next(read, c))
    ensures Calm(read, end, c) <==> Calm(read, end, Next(read, c))
  {
  }

  lemma StepsOn(read: Stepper, pieces: seq<Bytes>, entries: seq<Entry>, c: Cursor, i: nat)
    requires Steps(read, pieces, entries) && Before(pieces, entries, c, i)
    ensures i < |entries| ==> Before(pieces, entries, Next(read, c), i + 1) && Next(read, c).current == Some(entries[i])
    ensures i == |entries| ==> Next(read, c).current.None?
    ensures !Next(read, c).panicked
  {
  }

  lemma {:induction false} VisitedFrom(read: Stepper, end: int, pieces: seq<Bytes>, entries: seq<Entry>, c: Cursor,
      i: nat)
    requires Steps(read, pieces, entries) && Progresses(read, end) && Before(pieces, entries, c, i) && !c.panicked
    ensures Visited(read, end, c) == [c.current.value] + entries[i..] && Calm(read, end, c)
    decreases |entries| - i
  {
    VisitedStep(read, end, c);
    StepsOn(read, pieces, entries, c, i);
    if i < |entries| {
      VisitedFrom(read, end, pieces, entries, Next(read, c), i + 1);
      assert [entries[i]] + entries[i + 1..] == entries[i..];
    } else {
      assert Visited(read, end, Next(read, c)) == [] && Calm(read, end, Next(read, c));
    }
  }

  /** A scan sees every entry in order, and the first one twice; it never panics. */
  lemma ScanVisitsAll(hash: Hash, entries: seq<Entry>, c: Cursor)
    requires Writable(entries) && entries != []
    ensures var r := ReaderOf(hash, EncodeEntries(entries));
      && Progresses(StepperOf(r), DataEnd(r))
      && Visited(StepperOf(r), DataEnd(r), First(r, c)) == [entries[0]] + entries
      && Calm(StepperOf(r), DataEnd(r), First(r, c))
  {
    var pieces := EncodeEntries(entries);
    var r := ReaderOf(hash, pieces);
    EncodingReads(entries);
    FirstDecodes(hash, pieces, entries, c);
    BlockSteps(hash, pieces, entries);
    VisitedFrom(StepperOf(r), DataEnd(r), pieces, entries, Cursor(0, Some(entries[0])), 0);
  }
}
