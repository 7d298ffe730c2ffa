/** The prefix-compressed block: every sixteenth key in full, the others as a difference to the key before. */
module BlockFormat {
  import opened Options
  import opened Bytes
  import opened Sequences

  const RESTART_INTERVAL := 16
  const FOOTER_SIZE := 12

  datatype Entry = Entry(key: Bytes, value: Bytes)

  type Hash = Bytes -> Word64

  // --- writing ---------------------------------------------------------------------------------------------

  function CommonPrefix(a: Bytes, b: Bytes): (n: nat)
    ensures n <= |a| && n <= |b| && a[..n] == b[..n]
    ensures n < |a| && n < |b| ==> a[n] != b[n]
  {
    if a == [] || b == [] || a[0] != b[0] then 0
    else
      var n := CommonPrefix(a[1..], b[1..]);
      assert a[..n + 1] == [a[0]] + a[1..][..n] && b[..n + 1] == [b[0]] + b[1..][..n];
      n + 1
  }

  function ValueBytes(value: Bytes): Bytes { LittleEndian(|value|, 4) + value }

  function FullBytes(e: Entry): Bytes { LittleEndian(|e.key|, 2) + e.key + ValueBytes(e.value) }

  function DeltaBytes(prev: Bytes, e: Entry): Bytes {
    var shared := CommonPrefix(prev, e.key);
    LittleEndian(shared, 2) + LittleEndian(|e.key| - shared, 2) + e.key[shared..] + ValueBytes(e.value)
  }

  function EntryBytes(entries: seq<Entry>, i: nat): Bytes
    requires i < |entries|
  {
    if i % RESTART_INTERVAL == 0 then FullBytes(entries[i]) else DeltaBytes(entries[i - 1].key, entries[i])
  }

  function EncodeEntries(entries: seq<Entry>): (pieces: seq<Bytes>)
    ensures |pieces| == |entries|
  {
    seq(|entries|, i requires 0 <= i < |entries| => EntryBytes(entries, i))
  }

  /** Where piece `n` starts. */
  function Offset(pieces: seq<Bytes>, n: nat): nat
    requires n <= |pieces|
  {
    |Concat(pieces[..n])|
  }

  /** The offsets of the pieces written in full, among the first `n`. */
  function Restarts(pieces: seq<Bytes>, n: nat): seq<nat>
    requires n <= |pieces|
  {
    if n == 0 then []
    else Restarts(pieces, n - 1) + (if (n - 1) % RESTART_INTERVAL == 0 then [Offset(pieces, n - 1)] else [])
  }

  function RestartBytes(points: seq<nat>): (r: Bytes)
    ensures |r| == 4 * |points|
  {
    if points == [] then [] else RestartBytes(points[..|points| - 1]) + LittleEndian(points[|points| - 1], 4)
  }

  function Body(pieces: seq<Bytes>): Bytes {
    var points := Restarts(pieces, |pieces|);
    Concat(pieces) + RestartBytes(points) + LittleEndian(|points|, 4)
  }

  function Block(hash: Hash, pieces: seq<Bytes>): Bytes {
    Body(pieces) + LittleEndian(hash(Body(pieces)), 8)
  }

  // --- reading -----------------------------------------------------------------------------------------------

  datatype Reader = Reader(data: Bytes, restartPoints: seq<nat>)

  function DataEnd(r: Reader): int { |r.data| - FOOTER_SIZE - 4 * |r.restartPoints| }

  /** The entry decoded, if any, and how far the position moved, even when the decoding failed half way. */
  datatype Read = Read(entry: Option<Entry>, moved: nat, panics: bool := false)

  function ReadValue(rest: Bytes, key: Bytes, used: nat): Read {
    if |rest| < 4 then Read(None, used)
    else
      var n := FromLittleEndian(rest[..4]);
      if |rest| - 4 < n then Read(None, used) else Read(Some(Entry(key, rest[4..4 + n])), used + 4 + n)
  }

  function ReadFull(rest: Bytes): Read {
    if |rest| < 2 then Read(None, 0)
    else
      var n := FromLittleEndian(rest[..2]);
      if |rest| - 2 < n then Read(None, 0) else ReadValue(rest[2 + n..], rest[2..2 + n], 2 + n)
  }

  /** The length of the key is computed in 16 bits; when it does not fit, copying the shared part panics. */
  function ReadDelta(rest: Bytes, prev: Bytes): Read {
    if |rest| < 4 then Read(None, 0)
    else
      var shared, n := FromLittleEndian(rest[..2]), FromLittleEndian(rest[2..4]);
      if shared > |prev| % TWO_16 || |rest| - 4 < n then Read(None, 0)
      else if shared + n >= TWO_16 then Read(None, 0, true)
      else ReadValue(rest[4 + n..], prev[..shared] + rest[4..4 + n], 4 + n)
  }

  /** Position in the data, the key and value last decoded, and whether the last call panicked. */
  datatype Cursor = Cursor(pos: nat, current: Option<Entry>, panicked: bool := false)

  function ReadNext(r: Reader, c: Cursor): Read {
    if c.pos >= DataEnd(r) then Read(None, 0)
    else if c.pos in r.restartPoints || c.current.None? then ReadFull(r.data[c.pos..])
    else ReadDelta(r.data[c.pos..], c.current.value.key)
  }

  type Stepper = Cursor -> Read

  function StepperOf(r: Reader): Stepper { c => ReadNext(r, c) }

  /** A successful read lies before the end and moves on. */
  ghost predicate Progresses(read: Stepper, end: int) {
    forall c :: read(c).entry.Some? ==> c.pos < end && read(c).moved > 0 && !read(c).panics
  }

  lemma StepperProgresses(r: Reader)
    ensures Progresses(StepperOf(r), DataEnd(r))
  {
  }

  function Next(read: Stepper, c: Cursor): Cursor {
    if c.current.None? then Cursor(c.pos, None)
    else if read(c).panics then c.(panicked := true)
    else Cursor(c.pos + read(c).moved, read(c).entry)
  }

  /** Decoding at a restart point does not move past the entry. */
  function Restart(r: Reader, pos: nat): Cursor {
    Cursor(pos, if pos >= DataEnd(r) then None else ReadFull(r.data[pos..]).entry)
  }

  function First(r: Reader, c: Cursor): Cursor {
    if r.restartPoints == [] then Cursor(c.pos, None) else Restart(r, 0)
  }

  /** Forward until an entry does not decode. */
  function RunToEnd(read: Stepper, end: int, c: Cursor): Cursor
    requires Progresses(read, end)
    decreases end - c.pos
  {
    if read(c).entry.None? then c.(panicked := read(c).panics)
    else RunToEnd(read, end, Cursor(c.pos + read(c).moved, read(c).entry))
  }

  function Last(r: Reader, c: Cursor): Cursor {
    if r.restartPoints == [] then Cursor(c.pos, None)
    else
      var start := Restart(r, r.restartPoints[|r.restartPoints| - 1]);
      StepperProgresses(r);
      if start.current.None? then start else RunToEnd(StepperOf(r), DataEnd(r), start)
  }

  // --- an entry reads back ---------------------------------------------------------------------------------------

  /** What the format can carry: non-empty keys and lengths that fit their fields. */
  predicate Fits(e: Entry) {
    0 < |e.key| < TWO_16 && |e.value| < TWO_32
  }

  lemma Width2(n: nat)
    requires n < TWO_16
    ensures FromLittleEndian(LittleEndian(n, 2)) == n
  {
    Widths();
    LittleEndianRoundTrip(n, 2);
  }

  lemma Width4(n: nat)
    requires n < TWO_32
    ensures FromLittleEndian(LittleEndian(n, 4)) == n
  {
    Widths();
    LittleEndianRoundTrip(n, 4);
  }

  lemma ValueReads(value: Bytes, tail: Bytes, key: Bytes, used: nat)
    requires |value| < TWO_32
    ensures ReadValue(ValueBytes(value) + tail, key, used) == Read(Some(Entry(key, value)), used + |ValueBytes(value)|)
  {
    var rest := ValueBytes(value) + tail;
    Width4(|value|);
    assert rest[..4] == LittleEndian(|value|, 4);
    assert rest[4..4 + |value|] == value;
  }

  lemma FullUnfolds(rest: Bytes, n: nat, key: Bytes, more: Bytes)
    requires |rest| >= 2 && FromLittleEndian(rest[..2]) == n && rest[2..] == key + more && |key| == n
    ensures ReadFull(rest) == ReadValue(more, key, 2 + n)
  {
    assert rest[2..2 + n] == rest[2..][..n] == key;
    assert rest[2 + n..] == rest[2..][n..] == more;
  }

  lemma FullReads(e: Entry, tail: Bytes)
    requires Fits(e)
    ensures ReadFull(FullBytes(e) + tail) == Read(Some(e), |FullBytes(e)|)
  {
    var rest, n := FullBytes(e) + tail, |e.key|;
    Width2(n);
    assert rest[..2] == LittleEndian(n, 2);
    assert rest[2..] == e.key + (ValueBytes(e.value) + tail);
    FullUnfolds(rest, n, e.key, ValueBytes(e.value) + tail);
    ValueReads(e.value, tail, e.key, 2 + n);
  }

  lemma DeltaParts(shared: Bytes, unshared: Bytes, key: Bytes, value: Bytes, tail: Bytes)
    requires |shared| == 2 && |unshared| == 2
    ensures var rest := shared + unshared + key + value + tail;
      && |rest| >= 4 && rest[..2] == shared && rest[2..4] == unshared && rest[4..] == key + (value + tail)
  {
  }

  lemma DeltaUnfolds(rest: Bytes, prev: Bytes, shared: nat, n: nat, key: Bytes, more: Bytes)
    requires |rest| >= 4 && FromLittleEndian(rest[..2]) == shared && FromLittleEndian(rest[2..4]) == n
    requires rest[4..] == key + more && |key| == n && shared <= |prev| < TWO_16 && shared + n < TWO_16
    ensures ReadDelta(rest, prev) == ReadValue(more, prev[..shared] + key, 4 + n)
  {
    assert rest[4..4 + n] == rest[4..][..n] == key;
    assert rest[4 + n..] == rest[4..][n..] == more;
  }

  lemma DeltaReads(prev: Bytes, e: Entry, tail: Bytes)
    requires Fits(e) && |prev| < TWO_16
    ensures ReadDelta(DeltaBytes(prev, e) + tail, prev) == Read(Some(e), |DeltaBytes(prev, e)|)
  {
    var rest, shared := DeltaBytes(prev, e) + tail, CommonPrefix(prev, e.key);
    var n, key, more := |e.key| - shared, e.key[shared..], ValueBytes(e.value) + tail;
    Width2(shared);
    Width2(n);
    DeltaParts(LittleEndian(shared, 2), LittleEndian(n, 2), key, ValueBytes(e.value), tail);
    DeltaUnfolds(rest, prev, shared, n, key, more);
    assert prev[..shared] + key == e.key;
    ValueReads(e.value, tail, e.key, 4 + n);
  }
}
