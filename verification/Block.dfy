/** The block builder and the block iterator. */
module Block {
  import opened Options
  import opened Bytes
  import opened Sequences
  import opened BlockFormat
  import opened BlockLayout
  import opened BlockRoundTrip

  ghost predicate Ascending(entries: seq<Entry>) {
    forall i, j :: 0 <= i < j < |entries| ==> Less(entries[i].key, entries[j].key)
  }

  /** The part of the key that must be written is too long for its length field. */
  predicate Oversized(entries: seq<Entry>, i: nat) {
    && i < |entries| && i % RESTART_INTERVAL != 0
    && |entries[i].key| - CommonPrefix(entries[i - 1].key, entries[i].key) >= TWO_16
  }

  ghost predicate NoneOversized(entries: seq<Entry>, n: nat) {
    n == 0 || (NoneOversized(entries, n - 1) && !Oversized(entries, n - 1))
  }

  lemma {:induction false} NoneOversizedMeans(entries: seq<Entry>, n: nat)
    ensures NoneOversized(entries, n) <==> forall i :: 0 <= i < n ==> !Oversized(entries, i)
  {
    if n > 0 {
      NoneOversizedMeans(entries, n - 1);
    }
  }

  lemma {:induction false} OneOversized(entries: seq<Entry>, i: nat, n: nat)
    requires i < n && Oversized(entries, i)
    ensures !NoneOversized(entries, n)
  {
    if i < n - 1 {
      OneOversized(entries, i, n - 1);
    }
  }

  lemma CommonPrefixUnique(a: Bytes, b: Bytes, n: nat)
    requires n <= |a| && n <= |b| && a[..n] == b[..n]
    requires n < |a| && n < |b| ==> a[n] != b[n]
    ensures n == CommonPrefix(a, b)
  {
    var m := CommonPrefix(a, b);
    forall k | 0 <= k < m ensures a[k] == b[k] {
      assert a[..m][k] == b[..m][k];
    }
    forall k | 0 <= k < n ensures a[k] == b[k] {
      assert a[..n][k] == b[..n][k];
    }
  }

  method SharedLength(a: Bytes, b: Bytes) returns (n: nat)
    ensures n == CommonPrefix(a, b)
  {
    n := 0;
    while n < |a| && n < |b| && a[n] == b[n]
      invariant n <= |a| && n <= |b| && a[..n] == b[..n]
    {
      n := n + 1;
    }
    CommonPrefixUnique(a, b, n);
  }

  /** Entries whose key the next one does not repeat. */
  function LastOfEach(entries: seq<Entry>): seq<Entry> {
    if |entries| < 2 then entries
    else (if entries[0].key == entries[1].key then [] else [entries[0]]) + LastOfEach(entries[1..])
  }

  /** Entry `i` is the last of a run of equal keys. */
  predicate EndsRun(entries: seq<Entry>, i: int) {
    0 <= i < |entries| && (i + 1 < |entries| ==> entries[i].key != entries[i + 1].key)
  }

  /** Exactly the last entry of each run of equal keys is kept, and one of each run only. */
  lemma {:induction false} LastOfEachMeans(entries: seq<Entry>)
    ensures forall i :: EndsRun(entries, i) ==> entries[i] in LastOfEach(entries)
    ensures forall x :: x in LastOfEach(entries) ==> exists i :: EndsRun(entries, i) && entries[i] == x
    ensures forall k :: 0 < k < |LastOfEach(entries)| ==>
      LastOfEach(entries)[k - 1].key != LastOfEach(entries)[k].key
    ensures entries != [] ==> LastOfEach(entries) != [] && LastOfEach(entries)[0].key == entries[0].key
  {
    if |entries| >= 2 {
      var rest := entries[1..];
      LastOfEachMeans(rest);
      forall i | EndsRun(entries, i) ensures entries[i] in LastOfEach(entries) {
        if i > 0 {
          assert EndsRun(rest, i - 1);
        }
      }
      forall x | x in LastOfEach(entries) ensures exists i :: EndsRun(entries, i) && entries[i] == x {
        if x in LastOfEach(rest) {
          var j :| EndsRun(rest, j) && rest[j] == x;
          assert EndsRun(entries, j + 1);
        } else {
          assert EndsRun(entries, 0);
        }
      }
    } else if |entries| == 1 {
      assert EndsRun(entries, 0);
    }
  }

  lemma LastOfEachHead(entries: seq<Entry>, e: Entry)
    requires |entries| > 1
    ensures LastOfEach(entries + [e])
         == (if entries[0].key == entries[1].key then [] else [entries[0]]) + LastOfEach(entries[1..] + [e])
  {
    var all := entries + [e];
    assert all[0] == entries[0] && all[1] == entries[1] && all[1..] == entries[1..] + [e];
    LastOfEachUnfolds(all);
  }

  lemma LastOfEachUnfolds(all: seq<Entry>)
    requires |all| > 1
    ensures LastOfEach(all) == (if all[0].key == all[1].key then [] else [all[0]]) + LastOfEach(all[1..])
  {
  }

  lemma AppendBehind(head: seq<Entry>, all: seq<Entry>, e: Entry)
    requires all != []
    ensures (head + all)[|head + all| - 1] == all[|all| - 1]
    ensures head + (all[..|all| - 1] + [e]) == (head + all)[..|head + all| - 1] + [e]
    ensures head + (all + [e]) == head + all + [e]
  {
  }

  lemma {:induction false} LastOfEachSnoc(entries: seq<Entry>, e: Entry)
    requires entries != []
    ensures var all := LastOfEach(entries);
      && all != [] && all[|all| - 1] == entries[|entries| - 1]
      && LastOfEach(entries + [e])
         == (if entries[|entries| - 1].key == e.key then all[..|all| - 1] else all) + [e]
  {
    if |entries| > 1 {
      var rest, head := entries[1..], if entries[0].key == entries[1].key then [] else [entries[0]];
      LastOfEachSnoc(rest, e);
      LastOfEachHead(entries, e);
      AppendBehind(head, LastOfEach(rest), e);
    } else {
      assert [entries[0], e][1..] == [e] && entries + [e] == [entries[0], e];
    }
  }

  lemma {:induction false} AscendingKeepsAll(entries: seq<Entry>)
    requires Ascending(entries)
    ensures LastOfEach(entries) == entries
  {
    if |entries| > 1 {
      LessIrreflexive(entries[0].key);
      AscendingKeepsAll(entries[1..]);
    }
  }

  /** Drops repeated keys, keeping the last entry of each run. */
  method Unique(entries: seq<Entry>) returns (unique: seq<Entry>)
    ensures unique == LastOfEach(entries)
  {
    unique := [];
    for i := 0 to |entries|
      invariant unique == LastOfEach(entries[..i])
    {
      assert entries[..i + 1] == entries[..i] + [entries[i]];
      if i > 0 {
        LastOfEachSnoc(entries[..i], entries[i]);
      }
      if i > 0 && entries[i].key == entries[i - 1].key {
        unique := unique[|unique| - 1 := entries[i]];
      } else {
        unique := unique + [entries[i]];
      }
    }
    assert entries[..|entries|] == entries;
  }

  /** One entry: its whole key at a restart point, otherwise what differs from the key before. */
  method WriteEntry(isRestart: bool, prevKey: Bytes, e: Entry) returns (ok: bool, written: Bytes)
    ensures ok <==> isRestart || |e.key| - CommonPrefix(prevKey, e.key) < TWO_16
    ensures ok ==> written == if isRestart then FullBytes(e) else DeltaBytes(prevKey, e)
  {
    if isRestart {
      written := LittleEndian(|e.key|, 2) + e.key;
    } else {
      var shared := SharedLength(prevKey, e.key);
      if |e.key| - shared >= TWO_16 {
        return false, [];
      }
      written := LittleEndian(shared, 2) + LittleEndian(|e.key| - shared, 2) + e.key[shared..];
    }
    written := written + (LittleEndian(|e.value|, 4) + e.value);
    return true, written;
  }

  /** Entry `i` of the block, given the state the loop keeps: the key before and the count since the last restart. */
  method WriteNext(entries: seq<Entry>, i: nat, prevKey: Bytes, sinceRestart: nat)
    returns (isRestart: bool, ok: bool, written: Bytes)
    requires i < |entries| && (i > 0 ==> prevKey == entries[i - 1].key)
    requires sinceRestart == SinceRestart(i)
    ensures isRestart <==> i % RESTART_INTERVAL == 0
    ensures ok <==> !Oversized(entries, i)
    ensures ok ==> written == EncodeEntries(entries)[i]
  {
    isRestart := i == 0 || sinceRestart >= RESTART_INTERVAL;
    ok, written := WriteEntry(isRestart, prevKey, entries[i]);
  }

  method WriteRestarts(points: seq<nat>) returns (written: Bytes)
    ensures written == RestartBytes(points)
  {
    written := [];
    for i := 0 to |points|
      invariant written == RestartBytes(points[..i])
    {
      assert points[..i + 1][..i] == points[..i];
      written := written + LittleEndian(points[i], 4);
    }
    assert points[..|points|] == points;
  }

  /** How many entries were written since the last restart point, before entry `i`. */
  function SinceRestart(i: nat): nat { if i == 0 then 0 else (i - 1) % RESTART_INTERVAL + 1 }

  /** What the loop has written before entry `i`. */
  ghost predicate WrittenUpTo(pieces: seq<Bytes>, i: nat, buffer: Bytes, points: seq<nat>, since: nat) {
    && i <= |pieces| && buffer == Concat(pieces[..i]) && since == SinceRestart(i)
    && points == if i == 0 then [0] else Restarts(pieces, i)
  }

  lemma WriteStep(pieces: seq<Bytes>, i: nat, buffer: Bytes, points: seq<nat>, since: nat)
    requires i < |pieces| && WrittenUpTo(pieces, i, buffer, points, since)
    ensures var restart := i % RESTART_INTERVAL == 0;
      WrittenUpTo(pieces, i + 1, buffer + pieces[i], if restart && i > 0 then points + [|buffer|] else points,
                  if restart then 1 else since + 1)
  {
    OffsetStep(pieces, i);
    assert i == 0 ==> Restarts(pieces, 1) == [Offset(pieces, 0)];
  }

  /** The loop's state before entry `i`. */
  ghost predicate Underway(entries: seq<Entry>, pieces: seq<Bytes>, i: nat, prevKey: Bytes, buffer: Bytes,
      points: seq<nat>, since: nat) {
    && i <= |entries| == |pieces| && (i > 0 ==> prevKey == entries[i - 1].key)
    && WrittenUpTo(pieces, i, buffer, points, since) && NoneOversized(entries, i)
  }

  /** One round of the loop: a restart point if one is due, then the entry. */
  method WriteOne(entries: seq<Entry>, i: nat, prevKey: Bytes, buffer: Bytes, points: seq<nat>, since: nat,
      ghost pieces: seq<Bytes>)
    returns (ok: bool, prevKey': Bytes, buffer': Bytes, points': seq<nat>, since': nat)
    requires Underway(entries, pieces, i, prevKey, buffer, points, since) && i < |entries|
    requires pieces == EncodeEntries(entries)
    ensures ok ==> Underway(entries, pieces, i + 1, prevKey', buffer', points', since')
    ensures !ok ==> !NoneOversized(entries, |entries|)
  {
    var isRestart, written;
    isRestart, ok, written := WriteNext(entries, i, prevKey, since);
    if !ok {
      OneOversized(entries, i, |entries|);
    }
    points', since' := points, since;
    if isRestart {
      since' := 0;
      if i > 0 {
        points' := points + [|buffer|];
      }
    }
    WriteStep(pieces, i, buffer, points, since);
    prevKey', buffer', since' := entries[i].key, buffer + written, since' + 1;
  }

  lemma AllWritten(entries: seq<Entry>, pieces: seq<Bytes>, prevKey: Bytes, buffer: Bytes, points: seq<nat>, since: nat)
    requires Underway(entries, pieces, |entries|, prevKey, buffer, points, since) && entries != []
    ensures NoneOversized(entries, |entries|) && buffer == Concat(pieces) && points == Restarts(pieces, |pieces|)
  {
    assert pieces[..|pieces|] == pieces;
  }

  /** All entries back to back, and the offsets of those written in full. */
  method WriteEntries(entries: seq<Entry>) returns (ok: bool, buffer: Bytes, points: seq<nat>)
    requires entries != []
    ensures ok <==> NoneOversized(entries, |entries|)
    ensures ok ==> buffer == Concat(EncodeEntries(entries)) && points == Restarts(EncodeEntries(entries), |entries|)
  {
    ghost var pieces := EncodeEntries(entries);
    buffer, points := [], [0];
    var prevKey: Bytes, restartOffset := [], 0;
    for i := 0 to |entries|
      invariant Underway(entries, pieces, i, prevKey, buffer, points, restartOffset)
    {
      ok, prevKey, buffer, points, restartOffset := WriteOne(entries, i, prevKey, buffer, points, restartOffset,
          pieces);
      if !ok {
        return;
      }
    }
    AllWritten(entries, pieces, prevKey, buffer, points, restartOffset);
    ok := true;
  }

  class Builder {
    var entries: seq<Entry>
    var restartPoints: seq<nat>
    var lastKey: Bytes

    ghost predicate Valid()
      reads this
    {
      Ascending(entries) && (entries != [] ==> lastKey == entries[|entries| - 1].key)
    }

    constructor ()
      ensures Valid() && entries == []
    {
      entries, restartPoints, lastKey := [], [], [];
    }

    /** Refuses a key that does not come after the last one. */
    method Add(key: Bytes, value: Bytes) returns (ok: bool)
      requires Valid()
      modifies this
      ensures Valid()
      ensures ok <==> old(entries) == [] || Less(old(entries)[|old(entries)| - 1].key, key)
      ensures entries == old(entries) + if ok then [Entry(key, value)] else []
    {
      if |entries| > 0 && AtMost(key, lastKey) {
        LessAsymmetric(lastKey, key);
        LessIrreflexive(key);
        return false;
      }
      LessTotal(lastKey, key);
      forall i | 0 <= i < |entries| ensures Less(entries[i].key, key) {
        if i < |entries| - 1 {
          LessTransitive(entries[i].key, lastKey, key);
        }
      }
      entries, lastKey := entries + [Entry(key, value)], key;
      return true;
    }

    /** The serialized block, or None for an empty block or a key difference too long for its field. */
    method Finish(hash: Hash) returns (block: Option<Bytes>)
      requires Valid()
      modifies this
      ensures Valid() && entries == old(entries)
      ensures block.None? <==> entries == [] || exists i :: Oversized(entries, i)
      ensures block.Some? ==> block.value == Block(hash, EncodeEntries(entries))
    {
      if |entries| == 0 {
        return None;
      }
      AscendingKeepsAll(entries);
      entries := Unique(entries);
      var ok, buffer, points := WriteEntries(entries);
      restartPoints := points;
      NoneOversizedMeans(entries, |entries|);
      if !ok {
        return None;
      }
      var table := WriteRestarts(points);
      buffer := buffer + table + LittleEndian(|points|, 4);
      return Some(buffer + LittleEndian(hash(buffer), 8));
    }
  }

  /** Opens a block: its length, checksum and restart count are checked before anything is read. */
  method NewReader(hash: Hash, data: Bytes) returns (reader: Option<Reader>)
    ensures reader == Open(hash, data)
  {
    if |data| < FOOTER_SIZE {
      return None;
    }
    var footer := |data| - FOOTER_SIZE;
    var n := FromLittleEndian(data[footer..footer + 4]);
    if hash(data[..|data| - 8]) != FromLittleEndian(data[footer + 4..]) {
      return None;
    }
    var from := footer - n * 4;
    if from < 0 {
      return None;
    }
    var points: seq<nat> := [];
    for i := 0 to n
      invariant |points| == i
      invariant forall j :: 0 <= j < i ==> points[j] == FromLittleEndian(data[from + 4 * j..from + 4 * j + 4])
    {
      points := points + [FromLittleEndian(data[from + 4 * i..from + 4 * i + 4])];
    }
    assert points == ReadPoints(data, from, n);
    return Some(Reader(data, points));
  }

  lemma RunStep(read: Stepper, end: int, c: Cursor)
    requires Progresses(read, end)
    ensures RunToEnd(read, end, c)
         == if read(c).entry.None? then c.(panicked := read(c).panics)
            else RunToEnd(read, end, Cursor(c.pos + read(c).moved, read(c).entry))
    ensures read(c).entry.Some? ==> c.pos < end && read(c).moved > 0
  {
  }

  class Iterator {
    const reader: Reader
    var pos: nat
    var current: Option<Entry>
    var initialized: bool
    /** The last call ended in a panic. */
    var panicked: bool

    constructor (reader: Reader)
      ensures this.reader == reader && pos == 0 && current.None? && !initialized && !panicked
    {
      this.reader, pos, current, initialized, panicked := reader, 0, None, false, false;
    }

    ghost function At(): Cursor
      reads this
    {
      Cursor(pos, current, panicked)
    }

    predicate Valid()
      reads this
    {
      current.Some? && |current.value.key| > 0
    }

    /** The entry at a restart point; the position does not move. */
    method DecodeCurrent() returns (entry: Option<Entry>)
      modifies this`current
      ensures entry == Restart(reader, pos).current
      ensures current == if entry.Some? then entry else old(current)
    {
      if pos >= DataEnd(reader) {
        return None;
      }
      var data := reader.data[pos..];
      if |data| < 2 {
        return None;
      }
      var keyLen := FromLittleEndian(data[..2]);
      if |data| - 2 < keyLen {
        return None;
      }
      entry := TakeValue(data[2 + keyLen..], data[2..2 + keyLen]);
      if entry.Some? {
        current := entry;
      }
    }

    method TakeValue(data: Bytes, key: Bytes) returns (entry: Option<Entry>)
      ensures forall used :: entry == ReadValue(data, key, used).entry
    {
      if |data| < 4 {
        return None;
      }
      var valueLen := FromLittleEndian(data[..4]);
      if |data| - 4 < valueLen {
        return None;
      }
      return Some(Entry(key, data[4..4 + valueLen]));
    }

    method AtRestart() returns (isRestart: bool)
      ensures isRestart <==> pos in reader.restartPoints
    {
      for i := 0 to |reader.restartPoints|
        invariant forall j :: 0 <= j < i ==> reader.restartPoints[j] != pos
      {
        if reader.restartPoints[i] == pos {
          return true;
        }
      }
      return false;
    }

    /** The key of an entry written in full, and how many bytes it takes. */
    method TakeFullKey(data: Bytes) returns (key: Option<Bytes>, used: nat)
      ensures used <= |data|
      ensures ReadFull(data) == if key.None? then Read(None, 0) else ReadValue(data[used..], key.value, used)
    {
      if |data| < 2 {
        return None, 0;
      }
      var keyLen := FromLittleEndian(data[..2]);
      if |data| - 2 < keyLen {
        return None, 0;
      }
      return Some(data[2..2 + keyLen]), 2 + keyLen;
    }

    /** The key of an entry written as a difference to the current key. */
    method TakeDeltaKey(data: Bytes, prev: Bytes) returns (key: Option<Bytes>, used: nat, panics: bool)
      ensures used <= |data|
      ensures ReadDelta(data, prev)
           == if key.None? then Read(None, 0, panics) else ReadValue(data[used..], key.value, used)
      ensures key.Some? ==> !panics
    {
      if |data| < 4 {
        return None, 0, false;
      }
      var sharedLen, unsharedLen := FromLittleEndian(data[..2]), FromLittleEndian(data[2..4]);
      if sharedLen > |prev| % TWO_16 || |data| - 4 < unsharedLen {
        return None, 0, false;
      }
      if sharedLen + unsharedLen >= TWO_16 {
        return None, 0, true;
      }
      return Some(prev[..sharedLen] + data[4..4 + unsharedLen]), 4 + unsharedLen, false;
    }

    /** The entry at the position, which moves past it; a failed decoding may leave it half way. */
    method DecodeNext() returns (entry: Option<Entry>)
      modifies this`pos, this`panicked
      ensures entry == ReadNext(reader, old(At())).entry
      ensures pos == old(pos) + ReadNext(reader, old(At())).moved && panicked == ReadNext(reader, old(At())).panics
    {
      panicked := false;
      if pos >= DataEnd(reader) {
        return None;
      }
      var data := reader.data[pos..];
      var key, used;
      var isRestart := AtRestart();
      if isRestart || current.None? {
        key, used := TakeFullKey(data);
      } else {
        key, used, panicked := TakeDeltaKey(data, current.value.key);
      }
      if key.None? {
        return None;
      }
      pos := pos + used;
      entry := TakeValue(data[used..], key.value);
      if entry.Some? {
        pos := pos + 4 + |entry.value.value|;
      }
    }

    method SeekToFirst()
      modifies this
      ensures At() == First(reader, old(At())) && initialized
    {
      initialized, panicked := true, false;
      if |reader.restartPoints| == 0 {
        current := None;
        return;
      }
      pos := 0;
      current := DecodeCurrent();
    }

    method SeekToLast()
      modifies this
      ensures At() == Last(reader, old(At())) && initialized
    {
      initialized, panicked := true, false;
      if |reader.restartPoints| == 0 {
        current := None;
        return;
      }
      pos := reader.restartPoints[|reader.restartPoints| - 1];
      current := DecodeCurrent();
      if current.None? {
        return;
      }
      StepperProgresses(reader);
      RunForward(StepperOf(reader));
    }

    /** Decodes forward and steps back to the last entry that decoded. */
    method RunForward(ghost read: Stepper)
      requires read == StepperOf(reader) && Progresses(read, DataEnd(reader))
      modifies this`pos, this`current, this`panicked
      ensures At() == RunToEnd(read, DataEnd(reader), old(At()))
    {
      ghost var target := RunToEnd(read, DataEnd(reader), At());
      var more := true;
      while more
        invariant target == if more then RunToEnd(read, DataEnd(reader), At()) else At()
        decreases more, DataEnd(reader) - pos
      {
        more := StepForward(read, target);
      }
    }

    method StepForward(ghost read: Stepper, ghost target: Cursor) returns (more: bool)
      requires read == StepperOf(reader) && Progresses(read, DataEnd(reader))
      requires target == RunToEnd(read, DataEnd(reader), At())
      modifies this`pos, this`current, this`panicked
      ensures more ==> old(pos) < DataEnd(reader) && old(pos) < pos
      ensures target == if more then RunToEnd(read, DataEnd(reader), At()) else At()
    {
      var lastPos := pos;
      ghost var from := At();
      var entry := Step(read);
      more := Settle(entry, lastPos, from, read, DataEnd(reader), target);
    }

    /** Takes the entry that was decoded, or goes back to where the decoding started. */
    method Settle(entry: Option<Entry>, lastPos: nat, ghost from: Cursor, ghost read: Stepper, ghost end: int,
                  ghost target: Cursor)
      returns (more: bool)
      requires Progresses(read, end) && target == RunToEnd(read, end, from)
      requires from.pos == lastPos && from.current == current && panicked == read(from).panics
      requires entry == read(from).entry && pos == lastPos + read(from).moved
      modifies this`pos, this`current, this`panicked
      ensures more ==> lastPos < end && lastPos < pos
      ensures target == if more then RunToEnd(read, end, At()) else At()
    {
      RunStep(read, end, from);
      if entry.None? {
        pos := lastPos;
        return false;
      }
      current := entry;
      return true;
    }

    method Step(ghost read: Stepper) returns (entry: Option<Entry>)
      requires read == StepperOf(reader)
      modifies this`pos, this`panicked
      ensures entry == read(old(At())).entry && pos == old(pos) + read(old(At())).moved
      ensures panicked == read(old(At())).panics
    {
      entry := DecodeNext();
    }

    method Next() returns (ok: bool)
      modifies this
      ensures At() == if old(initialized) then BlockFormat.Next(StepperOf(reader), old(At()))
        else First(reader, old(At()))
      ensures initialized && (!panicked ==> ok == if old(initialized) then current.Some? else Valid())
    {
      if !initialized {
        SeekToFirst();
        return Valid();
      }
      if current.None? {
        panicked := false;
        return false;
      }
      var entry := DecodeNext();
      if panicked {
        return false;
      }
      current := entry;
      return current.Some?;
    }
  }

  /** What is left to see from the iterator's position is `todo`. */
  ghost predicate Sees(it: Iterator, read: Stepper, todo: seq<Entry>)
    requires Progresses(read, DataEnd(it.reader))
    reads it
  {
    && it.initialized && Calm(read, DataEnd(it.reader), it.At())
    && Visited(read, DataEnd(it.reader), it.At()) == todo
  }

  /** One round of a scan. */
  method ScanNext(it: Iterator, ghost read: Stepper, ghost todo: seq<Entry>) returns (e: Entry)
    requires read == StepperOf(it.reader) && Progresses(read, DataEnd(it.reader)) && Sees(it, read, todo) &&
      it.current.Some?
    modifies it
    ensures todo != [] && e == todo[0] && Sees(it, read, todo[1..]) && (it.current.Some? <==> todo[1..] != [])
  {
    ghost var end := DataEnd(it.reader);
    VisitedStep(read, end, it.At());
    e := it.current.value;
    var ok := it.Next();
    if it.current.Some? {
      VisitedStep(read, end, it.At());
    }
  }

  lemma VisitedHead(read: Stepper, end: int, c: Cursor)
    requires Progresses(read, end) && Calm(read, end, c)
    ensures if c.current.Some? then Visited(read, end, c) != [] && Visited(read, end, c)[0] == c.current.value
            else Visited(read, end, c) == []
  {
  }

  /** Scanning any block of writable entries sees them all in order, the first one twice. */
  method Scan(it: Iterator, ghost hash: Hash, ghost entries: seq<Entry>) returns (seen: seq<Entry>)
    requires Writable(entries) && entries != [] && it.reader == ReaderOf(hash, EncodeEntries(entries))
    modifies it
    ensures seen == [entries[0]] + entries && !it.Valid() && !it.panicked
  {
    ghost var read := StepperOf(it.reader);
    ScanVisitsAll(hash, entries, it.At());
    it.SeekToFirst();
    seen := ScanRest(it, read, [entries[0]] + entries);
  }

  method ScanRest(it: Iterator, ghost read: Stepper, ghost all: seq<Entry>) returns (seen: seq<Entry>)
    requires read == StepperOf(it.reader) && Progresses(read, DataEnd(it.reader)) && Sees(it, read, all)
    requires forall i :: 0 <= i < |all| ==> Fits(all[i])
    modifies it
    ensures seen == all && !it.Valid() && !it.panicked
  {
    seen := [];
    ghost var todo := all;
    VisitedHead(read, DataEnd(it.reader), it.At());
    while it.Valid()
      invariant Sees(it, read, todo) && seen + todo == all && (it.current.Some? <==> todo != [])
      invariant it.current.Some? ==> Fits(it.current.value)
      decreases |todo|
    {
      var e := ScanNext(it, read, todo);
      ShiftOne(seen, todo);
      seen, todo := seen + [e], todo[1..];
      VisitedHead(read, DataEnd(it.reader), it.At());
      assert todo != [] ==> all[|seen|] == todo[0];
    }
  }

  lemma WritableIsNotOversized(entries: seq<Entry>)
    requires Writable(entries)
    ensures forall i :: !Oversized(entries, i)
  {
    forall i: nat | i < |entries| && i % RESTART_INTERVAL != 0 ensures !Oversized(entries, i) {
      assert Fits(entries[i]);
    }
  }

  method Build(hash: Hash, entries: seq<Entry>) returns (block: Bytes)
    requires Writable(entries) && Ascending(entries) && entries != []
    ensures block == Block(hash, EncodeEntries(entries))
  {
    var b := new Builder();
    for i := 0 to |entries|
      invariant fresh(b) && b.Valid() && b.entries == entries[..i]
    {
      var ok := b.Add(entries[i].key, entries[i].value);
    }
    assert entries[..|entries|] == entries;
    WritableIsNotOversized(entries);
    var written := b.Finish(hash);
    return written.value;
  }

  /** Building, opening, scanning and seeking to the end, for any writable entries in ascending order. */
  method WriteAndScan(hash: Hash, entries: seq<Entry>) returns (seen: seq<Entry>, last: Option<Entry>)
    requires Writable(entries) && Ascending(entries) && entries != []
    requires |Block(hash, EncodeEntries(entries))| < TWO_32
    ensures seen == [entries[0]] + entries && last == Some(entries[|entries| - 1])
  {
    var block := Build(hash, entries);
    EncodingReads(entries);
    BlockOpens(hash, EncodeEntries(entries));
    var reader := NewReader(hash, block);
    var it := new Iterator(reader.value);
    seen := Scan(it, hash, entries);
    LastDecodes(hash, EncodeEntries(entries), entries, it.At());
    it.SeekToLast();
    last := it.current;
  }
}
