/** Reading back what was written: whole logs, and logs cut at any byte. */
module WalRoundTrip {
  import opened Options
  import opened Bytes
  import opened Sequences
  import opened WalFormat

  // --- one record -----------------------------------------------------------------------------------

  lemma RecordReads(crc: Checksum, recordType: Byte, data: Bytes, tail: Bytes)
    requires FULL <= recordType <= LAST && |data| < TWO_16
    ensures ReadRecord(crc, Record(crc, recordType, data) + tail) == (ReadOne(recordType, data), tail)
  {
    var stream := Record(crc, recordType, data) + tail;
    Widths();
    LittleEndianRoundTrip(crc(data), 4);
    LittleEndianRoundTrip(|data|, 2);
    assert stream[..4] == LittleEndian(crc(data), 4);
    assert stream[4..6] == LittleEndian(|data|, 2);
    var body := stream[HEADER_SIZE..];
    assert body == data + tail;
    assert body[..|data|] == data && body[|data|..] == tail;
  }

  /** A record that is cut anywhere reads as an end of file, never as a record or as corruption. */
  lemma RecordCut(crc: Checksum, recordType: Byte, data: Bytes, m: nat)
    requires FULL <= recordType <= LAST && |data| < TWO_16 && m < HEADER_SIZE + |data|
    ensures ReadRecord(crc, Record(crc, recordType, data)[..m]).0
      == (if m == 0 || m == HEADER_SIZE then EndOfFile else CutShort)
  {
    var stream := Record(crc, recordType, data)[..m];
    if m >= HEADER_SIZE {
      Widths();
      LittleEndianRoundTrip(|data|, 2);
      assert stream[4..6] == LittleEndian(|data|, 2);
    }
  }

  /** A record is read exactly when it is what the bytes start with, its checksum included. */
  lemma RecordExactly(crc: Checksum, rest: Bytes, recordType: Byte, data: Bytes, tail: Bytes)
    ensures ReadRecord(crc, rest) == (ReadOne(recordType, data), tail) <==>
      |data| < TWO_16 && FULL <= recordType <= LAST && rest == Record(crc, recordType, data) + tail
  {
    if ReadRecord(crc, rest) == (ReadOne(recordType, data), tail) {
      var body, length := rest[HEADER_SIZE..], FromLittleEndian(rest[4..6]);
      Widths();
      FromLittleEndianRoundTrip(rest[..4]);
      FromLittleEndianRoundTrip(rest[4..6]);
      assert rest == rest[..4] + rest[4..6] + [rest[6]] + body && body == body[..length] + body[length..];
    }
    if |data| < TWO_16 && FULL <= recordType <= LAST && rest == Record(crc, recordType, data) + tail {
      RecordReads(crc, recordType, data, tail);
    }
  }

  // --- one entry ------------------------------------------------------------------------------------

  lemma PayloadParses(e: Entry)
    requires ValidEntry(e)
    ensures ParseEntry(Payload(e)) == Parsed(e)
  {
    PayloadParsesWith(e, []);
    assert Payload(e) + [] == Payload(e);
  }

  /** Bytes parse to an entry exactly when they start with its payload. */
  lemma ParsesExactly(data: Bytes, e: Entry)
    ensures ParseEntry(data) == Parsed(e) <==> ValidEntry(e) && Payload(e) <= data
  {
    if ParseEntry(data) == Parsed(e) {
      ParsedIsPayload(data, e);
    }
    if ValidEntry(e) && Payload(e) <= data {
      PayloadParsesWith(e, data[|Payload(e)|..]);
      assert data == Payload(e) + data[|Payload(e)|..];
    }
  }

  lemma HeaderIsEncoded(data: Bytes)
    requires |data| >= ENTRY_HEADER_SIZE
    ensures var sequence, keyLength := FromLittleEndian(data[1..9]), FromLittleEndian(data[9..13]);
      data[..13] == EntryHeader(sequence, data[0], keyLength) && sequence < TWO_64 && keyLength < TWO_32
  {
    Widths();
    FromLittleEndianRoundTrip(data[1..9]);
    FromLittleEndianRoundTrip(data[9..13]);
    assert data[..13] == [data[0]] + data[1..9] + data[9..13];
  }

  lemma ValueIsEncoded(tail: Bytes, n: nat)
    requires |tail| >= 4 && n == FromLittleEndian(tail[..4]) && 4 + n <= |tail|
    ensures n < TWO_32 && ValueField(Some(tail[4..4 + n])) == tail[..4 + n]
  {
    Widths();
    FromLittleEndianRoundTrip(tail[..4]);
    assert tail[..4 + n] == tail[..4] + tail[4..4 + n];
  }

  /** The fields of an entry, where the parser finds them. */
  ghost predicate FieldsOf(data: Bytes, e: Entry) {
    && |data| >= ENTRY_HEADER_SIZE + |e.key| && e.opType == data[0] && PUT <= e.opType <= BATCH
    && e.sequence == FromLittleEndian(data[1..9]) && |e.key| == FromLittleEndian(data[9..13])
    && e.key == data[13..13 + |e.key|] && (e.value.None? <==> e.opType == DELETE)
    && (e.value.Some? ==> ValueAt(data[13 + |e.key|..], e.value.value))
  }

  ghost predicate ValueAt(tail: Bytes, value: Bytes) {
    |tail| >= 4 + |value| && FromLittleEndian(tail[..4]) == |value| && value == tail[4..4 + |value|]
  }

  lemma ParsedFields(data: Bytes, e: Entry)
    requires ParseEntry(data) == Parsed(e)
    ensures FieldsOf(data, e)
  {
  }

  lemma StartsWithParts(data: Bytes, header: Bytes, key: Bytes, field: Bytes)
    requires |data| >= |header| + |key| + |field| && data[..|header|] == header
    requires data[|header|..|header| + |key|] == key && data[|header| + |key|..][..|field|] == field
    ensures header + key + field <= data
  {
    var n := |header| + |key|;
    assert data[..n] == header + key;
    assert data[..n + |field|] == data[..n] + data[n..][..|field|];
  }

  lemma FieldsAreEncoded(data: Bytes, e: Entry)
    requires FieldsOf(data, e)
    ensures ValidEntry(e) && Payload(e) <= data
  {
    HeaderIsEncoded(data);
    if e.value.Some? {
      ValueIsEncoded(data[13 + |e.key|..], |e.value.value|);
    }
    StartsWithParts(data, EntryHeader(e.sequence, e.opType, |e.key|), e.key, ValueField(e.value));
  }

  lemma ParsedIsPayload(data: Bytes, e: Entry)
    requires ParseEntry(data) == Parsed(e)
    ensures ValidEntry(e) && Payload(e) <= data
  {
    ParsedFields(data, e);
    FieldsAreEncoded(data, e);
  }

  lemma PayloadParts(header: Bytes, key: Bytes, field: Bytes, more: Bytes)
    requires |header| == 13
    ensures var p := header + key + field + more;
      && |p| == 13 + |key| + |field| + |more| && p[..13] == header && p[13..13 + |key|] == key
      && p[13 + |key|..] == field + more
  {
    var p, n := header + key + field + more, 13 + |key|;
    Associates(header + key, field, more);
    assert p[..n] == header + key && p[n..] == field + more;
    assert p[..13] == p[..n][..13] && p[13..n] == p[..n][13..];
  }

  lemma HeaderParses(header: Bytes, sequence: nat, opType: Byte, keyLength: nat)
    requires header == EntryHeader(sequence, opType, keyLength) && sequence < TWO_64 && keyLength < TWO_32
    ensures header[0] == opType && FromLittleEndian(header[1..9]) == sequence
    ensures FromLittleEndian(header[9..13]) == keyLength
  {
    Widths();
    LittleEndianRoundTrip(sequence, 8);
    LittleEndianRoundTrip(keyLength, 4);
    assert header[1..9] == LittleEndian(sequence, 8);
    assert header[9..13] == LittleEndian(keyLength, 4);
  }

  lemma ValueParses(value: Bytes, more: Bytes)
    requires |value| < TWO_32
    ensures ValueAt(ValueField(Some(value)) + more, value)
  {
    var tail := ValueField(Some(value)) + more;
    Widths();
    LittleEndianRoundTrip(|value|, 4);
    assert tail[..4] == LittleEndian(|value|, 4);
    assert tail[4..4 + |value|] == value;
  }

  lemma FieldsParse(data: Bytes, e: Entry)
    requires FieldsOf(data, e)
    ensures ParseEntry(data) == Parsed(e)
  {
  }

  lemma PayloadParsesWith(e: Entry, more: Bytes)
    requires ValidEntry(e)
    ensures ParseEntry(Payload(e) + more) == Parsed(e)
  {
    var p, header := Payload(e) + more, EntryHeader(e.sequence, e.opType, |e.key|);
    PayloadParts(header, e.key, ValueField(e.value), more);
    HeaderParses(header, e.sequence, e.opType, |e.key|);
    assert p[0] == p[..13][0] && p[1..9] == p[..13][1..9] && p[9..13] == p[..13][9..13];
    if e.value.Some? {
      ValueParses(e.value.value, more);
    }
    FieldsParse(p, e);
  }

  // --- nothing but what was written is read -------------------------------------------------------------

  datatype Piece = Piece(recordType: Byte, data: Bytes)

  function PiecesBytes(crc: Checksum, pieces: seq<Piece>): Bytes {
    if pieces == [] then [] else Record(crc, pieces[0].recordType, pieces[0].data) + PiecesBytes(crc, pieces[1..])
  }

  function DataOf(pieces: seq<Piece>): seq<Bytes> {
    seq(|pieces|, i requires 0 <= i < |pieces| => pieces[i].data)
  }

  /** The last of these records is a whole entry, or the last fragment of one that starts with those pending. */
  ghost predicate Holds(pieces: seq<Piece>, pending: seq<Bytes>, e: Entry) {
    && pieces != [] && ValidEntry(e)
    && var last := pieces[|pieces| - 1];
       (last.recordType == FULL && Payload(e) <= last.data) ||
       (last.recordType == LAST && Payload(e) <= Concat(pending + DataOf(pieces)) &&
        (pending == [] ==> |pieces| > 1 && pieces[0].recordType == FIRST))
  }

  /**
    Whatever the bytes are, an entry is returned only if it stands in them: the bytes read are records with
    their right checksums, and the entry's payload is in the last one or in the fragments put together.
  */
  lemma {:induction false} OnlyWrittenIsRead(crc: Checksum, r: ReaderState, e: Entry) returns (pieces: seq<Piece>)
    requires ReadEntry(crc, r).0 == Got(e)
    ensures r.rest == PiecesBytes(crc, pieces) + ReadEntry(crc, r).1.rest && Holds(pieces, r.fragments, e)
    decreases |r.rest|
  {
    var (record, rest) := ReadRecord(crc, r.rest);
    var first := Piece(record.recordType, record.data);
    ReadRecordShortens(crc, r.rest);
    if first.recordType == FULL || first.recordType == LAST {
      pieces := [first];
      LastPiece(crc, r, e);
    } else {
      RecordExactly(crc, r.rest, first.recordType, first.data, rest);
      var more := OnlyWrittenIsRead(crc, ReaderState(rest, r.fragments + [first.data]), e);
      pieces := [first] + more;
      PrependPiece(crc, first, more, ReadEntry(crc, r).1.rest, r.fragments, e);
    }
  }

  lemma LastPiece(crc: Checksum, r: ReaderState, e: Entry)
    requires ReadEntry(crc, r).0 == Got(e) && ReadRecord(crc, r.rest).0.ReadOne?
    requires ReadRecord(crc, r.rest).0.recordType == FULL || ReadRecord(crc, r.rest).0.recordType == LAST
    ensures var record := ReadRecord(crc, r.rest).0;
      var pieces := [Piece(record.recordType, record.data)];
      r.rest == PiecesBytes(crc, pieces) + ReadEntry(crc, r).1.rest && Holds(pieces, r.fragments, e)
  {
    var (record, rest) := ReadRecord(crc, r.rest);
    var piece := Piece(record.recordType, record.data);
    RecordExactly(crc, r.rest, piece.recordType, piece.data, rest);
    OnePiece(crc, piece);
    ParsesExactly(if piece.recordType == FULL then piece.data else Concat(r.fragments + [piece.data]), e);
  }

  lemma PrependPiece(crc: Checksum, first: Piece, more: seq<Piece>, tail: Bytes, pending: seq<Bytes>, e: Entry)
    requires Holds(more, pending + [first.data], e) && (pending == [] ==> first.recordType == FIRST)
    ensures Record(crc, first.recordType, first.data) + (PiecesBytes(crc, more) + tail)
         == PiecesBytes(crc, [first] + more) + tail
    ensures Holds([first] + more, pending, e)
  {
    Associates(Record(crc, first.recordType, first.data), PiecesBytes(crc, more), tail);
    assert ([first] + more)[1..] == more;
    assert pending + DataOf([first] + more) == pending + [first.data] + DataOf(more);
  }

  lemma OnePiece(crc: Checksum, piece: Piece)
    ensures PiecesBytes(crc, [piece]) == Record(crc, piece.recordType, piece.data) && DataOf([piece]) == [piece.data]
  {
    assert [piece][1..] == [];
    assert Record(crc, piece.recordType, piece.data) + [] == Record(crc, piece.recordType, piece.data);
  }

  lemma MiddleReads(crc: Checksum, chunk: Bytes, fragments: seq<Bytes>, tail: Bytes)
    requires |chunk| < TWO_16 && |fragments| > 0
    ensures ReadEntry(crc, ReaderState(Record(crc, MIDDLE, chunk) + tail, fragments))
         == ReadEntry(crc, ReaderState(tail, fragments + [chunk]))
  {
    RecordReads(crc, MIDDLE, chunk, tail);
  }

  lemma LastReads(crc: Checksum, chunk: Bytes, fragments: seq<Bytes>, tail: Bytes)
    requires |chunk| < TWO_16 && |fragments| > 0
    ensures ReadEntry(crc, ReaderState(Record(crc, LAST, chunk) + tail, fragments))
         == (FromParse(ParseEntry(Concat(fragments) + chunk)), ReaderState(tail, []))
  {
    RecordReads(crc, LAST, chunk, tail);
    ConcatSnoc(fragments, chunk);
  }

  lemma SplitJoins(a: Bytes, b: Bytes, k: nat)
    requires k <= |b|
    ensures a + b[..k] + b[k..] == a + b
  {
  }

  lemma {:induction false} FragmentsRead(crc: Checksum, data: Bytes, fragments: seq<Bytes>, tail: Bytes)
    requires |data| > 0 && |fragments| > 0
    ensures ReadEntry(crc, ReaderState(Fragments(crc, data) + tail, fragments))
         == (FromParse(ParseEntry(Concat(fragments) + data)), ReaderState(tail, []))
    decreases |data|
  {
    if |data| > MAX_RECORD_SIZE {
      var chunk, rest := data[..MAX_RECORD_SIZE], data[MAX_RECORD_SIZE..];
      var record, more := Record(crc, MIDDLE, chunk), Fragments(crc, rest);
      calc {
        ReadEntry(crc, ReaderState(Fragments(crc, data) + tail, fragments));
        { Associates(record, more, tail); }
        ReadEntry(crc, ReaderState(record + (more + tail), fragments));
        { MiddleReads(crc, chunk, fragments, more + tail); }
        ReadEntry(crc, ReaderState(more + tail, fragments + [chunk]));
        { FragmentsRead(crc, rest, fragments + [chunk], tail); }
        (FromParse(ParseEntry(Concat(fragments + [chunk]) + rest)), ReaderState(tail, []));
        { ConcatSnoc(fragments, chunk); SplitJoins(Concat(fragments), data, MAX_RECORD_SIZE); }
        (FromParse(ParseEntry(Concat(fragments) + data)), ReaderState(tail, []));
      }
    } else {
      LastReads(crc, data, fragments, tail);
    }
  }

  /** What a reader reports when the bytes stop in the middle of well-formed entries. */
  predicate Interrupted(result: EntryResult) {
    result == Eof || result == UnfinishedFragments || result == RecordError(CutShort)
  }

  lemma {:induction false} FragmentsCut(crc: Checksum, data: Bytes, fragments: seq<Bytes>, m: nat)
    requires |data| > 0 && |fragments| > 0 && m < |Fragments(crc, data)|
    ensures Interrupted(ReadEntry(crc, ReaderState(Fragments(crc, data)[..m], fragments)).0)
    ensures ReadEntry(crc, ReaderState(Fragments(crc, data)[..m], fragments)).0 != Eof
    decreases |data|
  {
    if |data| > MAX_RECORD_SIZE {
      var chunk, rest := data[..MAX_RECORD_SIZE], data[MAX_RECORD_SIZE..];
      var record := Record(crc, MIDDLE, chunk);
      if m < |record| {
        assert Fragments(crc, data)[..m] == record[..m];
        RecordCut(crc, MIDDLE, chunk, m);
      } else {
        assert Fragments(crc, data)[..m] == record + Fragments(crc, rest)[..m - |record|];
        RecordReads(crc, MIDDLE, chunk, Fragments(crc, rest)[..m - |record|]);
        FragmentsCut(crc, rest, fragments + [chunk], m - |record|);
      }
    } else {
      RecordCut(crc, LAST, data, m);
    }
  }

  /** Fragmentation always leaves data for a last record, and the first record is never empty. */
  lemma FragmentedShape(e: Entry)
    requires |Payload(e)| > MAX_RECORD_SIZE
    ensures ENTRY_HEADER_SIZE <= FirstFragmentSize(e) <= MAX_RECORD_SIZE
    ensures FirstFragmentSize(e) < |Payload(e)|
  {
  }

  lemma FirstReads(crc: Checksum, first: Bytes, tail: Bytes)
    requires 0 < |first| < TWO_16
    ensures ReadEntry(crc, ReaderState(Record(crc, FIRST, first) + tail, []))
         == ReadEntry(crc, ReaderState(tail, [first]))
  {
    RecordReads(crc, FIRST, first, tail);
    assert [] + [first] == [first];
  }

  lemma ConcatOne(first: Bytes)
    ensures Concat([first]) == first
  {
    ConcatSnoc([], first);
    assert [] + [first] == [first];
  }

  lemma FragmentedReads(crc: Checksum, first: Bytes, rest: Bytes, tail: Bytes)
    requires 0 < |first| <= MAX_RECORD_SIZE && |rest| > 0
    ensures ReadEntry(crc, ReaderState(Record(crc, FIRST, first) + Fragments(crc, rest) + tail, []))
         == (FromParse(ParseEntry(first + rest)), ReaderState(tail, []))
  {
    var record, more := Record(crc, FIRST, first), Fragments(crc, rest);
    calc {
      ReadEntry(crc, ReaderState(record + more + tail, []));
      { Associates(record, more, tail); }
      ReadEntry(crc, ReaderState(record + (more + tail), []));
      { FirstReads(crc, first, more + tail); }
      ReadEntry(crc, ReaderState(more + tail, [first]));
      { FragmentsRead(crc, rest, [first], tail); }
      (FromParse(ParseEntry(Concat([first]) + rest)), ReaderState(tail, []));
      { ConcatOne(first); }
      (FromParse(ParseEntry(first + rest)), ReaderState(tail, []));
    }
  }

  lemma WholeReads(crc: Checksum, p: Bytes, tail: Bytes)
    requires |p| <= MAX_RECORD_SIZE
    ensures ReadEntry(crc, ReaderState(Record(crc, FULL, p) + tail, []))
      == (FromParse(ParseEntry(p)), ReaderState(tail, []))
  {
    RecordReads(crc, FULL, p, tail);
  }

  lemma EntryBytesRead(crc: Checksum, e: Entry, p: Bytes, tail: Bytes)
    requires p == Payload(e)
    ensures ReadEntry(crc, ReaderState(EncodeEntry(crc, e) + tail, []))
      == (FromParse(ParseEntry(p)), ReaderState(tail, []))
  {
    if |p| <= MAX_RECORD_SIZE {
      WholeReads(crc, p, tail);
    } else {
      var n := FirstFragmentSize(e);
      FragmentedShape(e);
      FragmentedReads(crc, p[..n], p[n..], tail);
      assert p[..n] + p[n..] == p;
    }
  }

  lemma EntryReads(crc: Checksum, e: Entry, tail: Bytes)
    requires ValidEntry(e)
    ensures ReadEntry(crc, ReaderState(EncodeEntry(crc, e) + tail, [])) == (Got(e), ReaderState(tail, []))
  {
    PayloadParses(e);
    EntryBytesRead(crc, e, Payload(e), tail);
  }

  lemma FragmentedCut(crc: Checksum, first: Bytes, rest: Bytes, m: nat)
    requires 0 < |first| <= MAX_RECORD_SIZE && |rest| > 0
    requires m < |Record(crc, FIRST, first) + Fragments(crc, rest)|
    ensures var result := ReadEntry(crc, ReaderState((Record(crc, FIRST, first) + Fragments(crc, rest))[..m], [])).0;
      Interrupted(result) && (result == Eof <==> m == 0 || m == HEADER_SIZE)
  {
    var record, more := Record(crc, FIRST, first), Fragments(crc, rest);
    if m < |record| {
      assert (record + more)[..m] == record[..m];
      RecordCut(crc, FIRST, first, m);
    } else {
      var k := m - |record|;
      assert (record + more)[..m] == record + more[..k];
      FirstReads(crc, first, more[..k]);
      FragmentsCut(crc, rest, [first], k);
    }
  }

  lemma EntryCut(crc: Checksum, e: Entry, m: nat)
    requires ValidEntry(e) && m < |EncodeEntry(crc, e)|
    ensures var result := ReadEntry(crc, ReaderState(EncodeEntry(crc, e)[..m], [])).0;
      Interrupted(result) && (result == Eof <==> m == 0 || m == HEADER_SIZE)
  {
    var p, n := Payload(e), FirstFragmentSize(e);
    if |p| <= MAX_RECORD_SIZE {
      RecordCut(crc, FULL, p, m);
    } else {
      FragmentedShape(e);
      FragmentedCut(crc, p[..n], p[n..], m);
    }
  }

  // --- whole logs -----------------------------------------------------------------------------------

  ghost predicate ValidEntries(entries: seq<Entry>) {
    forall i :: 0 <= i < |entries| ==> ValidEntry(entries[i])
  }

  /** Reading undoes encoding, and a part of an entry reads as an interruption. */
  ghost predicate Inverse(read: EntryReader, encode: Entry -> Bytes, e: Entry) {
    && (forall tail :: read(ReaderState(encode(e) + tail, [])) == (Got(e), ReaderState(tail, [])))
    && (forall m :: 0 <= m < |encode(e)| ==> Interrupted(read(ReaderState(encode(e)[..m], [])).0))
  }

  ghost predicate Inverses(read: EntryReader, encode: Entry -> Bytes, entries: seq<Entry>) {
    && Shortens(read) && read(ReaderState([], [])).0 == Eof
    && forall i :: 0 <= i < |entries| ==> Inverse(read, encode, entries[i])
  }

  lemma EntriesInverse(crc: Checksum, entries: seq<Entry>)
    requires ValidEntries(entries)
    ensures Inverses(ReaderFor(crc), Encoder(crc), entries)
  {
    ReaderShortens(crc);
    forall i | 0 <= i < |entries| ensures Inverse(ReaderFor(crc), Encoder(crc), entries[i]) {
      EntryInverse(crc, entries[i]);
    }
  }

  lemma EntryInverse(crc: Checksum, e: Entry)
    requires ValidEntry(e)
    ensures Inverse(ReaderFor(crc), Encoder(crc), e)
  {
    var read, encode := ReaderFor(crc), Encoder(crc);
    forall tail ensures read(ReaderState(encode(e) + tail, [])) == (Got(e), ReaderState(tail, [])) {
      EntryReads(crc, e, tail);
    }
    forall m | 0 <= m < |encode(e)| ensures Interrupted(read(ReaderState(encode(e)[..m], [])).0) {
      EntryCut(crc, e, m);
    }
  }

  /** How many leading entries have all their records among the first `n` bytes of the log. */
  function WholeEntries(encode: Entry -> Bytes, entries: seq<Entry>, n: nat): (k: nat)
    ensures k <= |entries|
  {
    if entries == [] then 0
    else
      var size := |encode(entries[0])|;
      if size <= n then 1 + WholeEntries(encode, entries[1..], n - size) else 0
  }

  lemma {:induction false} WholeEntriesMeaning(encode: Entry -> Bytes, entries: seq<Entry>, n: nat, j: nat)
    requires j <= |entries|
    ensures j <= WholeEntries(encode, entries, n) <==> |Log(encode, entries[..j])| <= n
  {
    if j > 0 {
      var size := |encode(entries[0])|;
      assert entries[..j][1..] == entries[1..][..j - 1];
      if size <= n {
        WholeEntriesMeaning(encode, entries[1..], n - size, j - 1);
      }
    }
  }

  /** What the reader makes of the first `n` bytes of the log of `entries`. */
  function ReadPrefix(read: EntryReader, encode: Entry -> Bytes, entries: seq<Entry>, n: nat): (seq<Entry>, EntryResult)
    requires Shortens(read) && n <= |Log(encode, entries)|
  {
    ReadAll(read, ReaderState(Log(encode, entries)[..n], []))
  }

  lemma FirstEntryInside(read: EntryReader, encode: Entry -> Bytes, entries: seq<Entry>, n: nat, size: nat)
    requires entries != [] && Inverses(read, encode, entries) && size == |encode(entries[0])|
    requires size <= n <= |Log(encode, entries)|
    ensures ReadPrefix(read, encode, entries, n).0 == [entries[0]] + ReadPrefix(read, encode, entries[1..], n - size).0
    ensures ReadPrefix(read, encode, entries, n).1 == ReadPrefix(read, encode, entries[1..], n - size).1
  {
    var first, more := encode(entries[0]), Log(encode, entries[1..]);
    assert (first + more)[..n] == first + more[..n - size];
    assert Inverse(read, encode, entries[0]);
  }

  lemma FirstEntryCut(read: EntryReader, encode: Entry -> Bytes, entries: seq<Entry>, n: nat)
    requires entries != [] && Inverses(read, encode, entries) && n < |encode(entries[0])|
    ensures n <= |Log(encode, entries)|
    ensures ReadPrefix(read, encode, entries, n).0 == [] && Interrupted(ReadPrefix(read, encode, entries, n).1)
  {
    var first, more := encode(entries[0]), Log(encode, entries[1..]);
    assert (first + more)[..n] == first[..n];
    assert Inverse(read, encode, entries[0]);
  }

  lemma TakeCons(entries: seq<Entry>, k: nat)
    requires entries != [] && k <= |entries[1..]|
    ensures [entries[0]] + entries[1..][..k] == entries[..1 + k]
  {
  }

  lemma {:induction false} PrefixReads(read: EntryReader, encode: Entry -> Bytes, entries: seq<Entry>, n: nat)
    requires Inverses(read, encode, entries) && n <= |Log(encode, entries)|
    ensures ReadPrefix(read, encode, entries, n).0 == entries[..WholeEntries(encode, entries, n)]
    ensures Interrupted(ReadPrefix(read, encode, entries, n).1)
  {
    if entries == [] {
    } else if |encode(entries[0])| <= n {
      var size := |encode(entries[0])|;
      PrefixReads(read, encode, entries[1..], n - size);
      FirstEntryInside(read, encode, entries, n, size);
      TakeCons(entries, WholeEntries(encode, entries[1..], n - size));
    } else {
      FirstEntryCut(read, encode, entries, n);
    }
  }

  /**
    Truncation safety: from any byte prefix of a log the reader returns exactly the leading
    entries whose records lie wholly inside it, and then stops for lack of bytes.
  */
  lemma PrefixReadsWholeEntries(crc: Checksum, entries: seq<Entry>, n: nat)
    requires ValidEntries(entries) && n <= |EncodeLog(crc, entries)|
    ensures Shortens(ReaderFor(crc))
    ensures var (got, stop) := ReadAll(ReaderFor(crc), ReaderState(EncodeLog(crc, entries)[..n], []));
      got == entries[..WholeEntries(Encoder(crc), entries, n)] && Interrupted(stop)
  {
    EntriesInverse(crc, entries);
    PrefixReads(ReaderFor(crc), Encoder(crc), entries, n);
  }

  lemma {:induction false} WholeLogReads(read: EntryReader, encode: Entry -> Bytes, entries: seq<Entry>)
    requires Inverses(read, encode, entries)
    ensures ReadAll(read, ReaderState(Log(encode, entries), [])) == (entries, Eof)
  {
    if entries != [] {
      assert Inverse(read, encode, entries[0]);
      WholeLogReads(read, encode, entries[1..]);
      assert entries == [entries[0]] + entries[1..];
    }
  }

  /** Round trip: the whole log reads back as the entries written, and then end of file. */
  lemma LogReadsBack(crc: Checksum, entries: seq<Entry>)
    requires ValidEntries(entries)
    ensures Shortens(ReaderFor(crc))
    ensures ReadAll(ReaderFor(crc), ReaderState(EncodeLog(crc, entries), [])) == (entries, Eof)
  {
    EntriesInverse(crc, entries);
    WholeLogReads(ReaderFor(crc), Encoder(crc), entries);
  }

  lemma {:induction false} LogAppend(encode: Entry -> Bytes, entries: seq<Entry>, e: Entry)
    ensures Log(encode, entries + [e]) == Log(encode, entries) + encode(e)
  {
    if entries == [] {
      assert [e][1..] == [];
    } else {
      LogAppend(encode, entries[1..], e);
      assert (entries + [e])[1..] == entries[1..] + [e];
    }
  }

  lemma EncodeLogAppend(crc: Checksum, entries: seq<Entry>, e: Entry)
    ensures EncodeLog(crc, entries + [e]) == EncodeLog(crc, entries) + EncodeEntry(crc, e)
  {
    LogAppend(Encoder(crc), entries, e);
  }
}
