/** The log writer and the log reader as objects, proved against the byte-level specification. */
module Wal {
  import opened Options
  import opened Bytes
  import opened Sequences
  import opened WalFormat
  import opened WalRoundTrip
  import opened WalBatch

  datatype Status = Active | Rotating | Closed
  datatype Error = WalClosed | WalRotating | InvalidOpType | RecordTooLarge | EmptyBatch | BatchTooLarge
  datatype Result<+T> = Ok(value: T) | Err(error: Error)

  /** uint64 addition. */
  function AddUint64(a: nat, b: nat): (r: nat)
    requires a < TWO_64 && b < TWO_64
    ensures r < TWO_64 && (r == a + b || r == a + b - TWO_64)
  {
    if a + b < TWO_64 then a + b else a + b - TWO_64
  }

  /** Sequence numbers increase along the log and the next one is larger still. */
  ghost predicate IncreasingLog(log: seq<Entry>, next: nat) {
    forall i, j {:trigger Follows(log, next, i, j)} :: Follows(log, next, i, j)
  }

  ghost predicate Follows(log: seq<Entry>, next: nat, i: int, j: int) {
    0 <= i < j <= |log| ==> log[i].sequence < if j < |log| then log[j].sequence else next
  }

  lemma IncreasingAppend(log: seq<Entry>, next: nat, e: Entry, after: nat)
    requires IncreasingLog(log, next) && next <= e.sequence < after
    ensures IncreasingLog(log + [e], after)
  {
    forall i, j ensures Follows(log + [e], after, i, j) {
      assert Follows(log, next, i, j) && Follows(log, next, i, |log|);
    }
  }

  lemma IncreasingSkip(log: seq<Entry>, next: nat, after: nat)
    requires IncreasingLog(log, next) && next <= after
    ensures IncreasingLog(log, after)
  {
    forall i, j ensures Follows(log, after, i, j) {
      assert Follows(log, next, i, j);
    }
  }

  lemma BatchSizes(sequence: nat, ops: seq<Operation>)
    requires sequence < TWO_64 && ValidOperations(ops) && |ops| < TWO_32
    ensures |BatchData(sequence, ops)| == |BatchData(0, ops)|
    ensures |Payload(BatchEntry(sequence, ops))| == |BatchData(0, ops)| + 17
    ensures |BatchData(0, ops)| <= MAX_RECORD_SIZE ==> ValidEntry(BatchEntry(sequence, ops))
  {
    OperationsLength(ops);
  }

  class Writer {
    const crc: Checksum
    var file: Bytes
    var nextSequence: nat
    var bytesWritten: nat
    var status: Status
    var closed: bool
    /** The entries written so far, in order. */
    ghost var log: seq<Entry>

    ghost predicate Valid()
      reads this
    {
      && file == EncodeLog(crc, log)
      && ValidEntries(log)
      && nextSequence < TWO_64
      && bytesWritten == |file|
    }

    constructor (crc: Checksum)
      ensures Valid() && IncreasingLog(log, nextSequence) && log == [] && nextSequence == 1 && status == Active &&
        !closed
      ensures this.crc == crc
    {
      this.crc := crc;
      file, nextSequence, bytesWritten, status, closed, log := [], 1, 0, Active, false, [];
    }

    method WriteRawRecord(recordType: Byte, data: Bytes) returns (ok: bool)
      modifies this`file, this`bytesWritten
      ensures ok <==> |data| <= MAX_RECORD_SIZE
      ensures file == old(file) + if ok then Record(crc, recordType, data) else []
      ensures bytesWritten == old(bytesWritten) + |file| - |old(file)|
    {
      if |data| > MAX_RECORD_SIZE {
        return false;
      }
      var header := new Byte[HEADER_SIZE](_ => 0);
      CopyInto(header, 4, LittleEndian(|data|, 2));
      header[6] := recordType;
      ghost var before := header[..];
      CopyInto(header, 0, LittleEndian(crc(data), 4));
      assert header[..] == LittleEndian(crc(data), 4) + before[4..];
      assert before[4..] == LittleEndian(|data|, 2) + [recordType];
      assert header[..] + data == Record(crc, recordType, data);
      file := file + header[..];
      file := file + data;
      bytesWritten := bytesWritten + HEADER_SIZE + |data|;
      return true;
    }

    /** Fills a buffer of the entry's size with header, key and, unless it is a deletion, value. */
    method FillPayload(e: Entry) returns (payload: Bytes)
      ensures payload == Payload(e)
    {
      var size := ENTRY_HEADER_SIZE + |e.key| + if e.value.Some? then 4 + |e.value.value| else 0;
      var buffer := new Byte[size](_ => 0);
      buffer[0] := e.opType;
      CopyInto(buffer, 1, LittleEndian(e.sequence, 8));
      CopyInto(buffer, 9, LittleEndian(|e.key|, 4));
      CopyInto(buffer, 13, e.key);
      var offset := 13 + |e.key|;
      ghost var start := EntryHeader(e.sequence, e.opType, |e.key|) + e.key;
      assert buffer[..offset] == start;
      if e.value.Some? {
        FillValue(buffer, offset, e.value.value);
      }
      assert buffer[..] == buffer[..offset] + buffer[offset..];
      payload := buffer[..];
    }

    method FillValue(buffer: array<Byte>, offset: nat, value: Bytes)
      requires offset + 4 + |value| == buffer.Length
      modifies buffer
      ensures buffer[..offset] == old(buffer[..offset]) && buffer[offset..] == LittleEndian(|value|, 4) + value
    {
      CopyInto(buffer, offset, LittleEndian(|value|, 4));
      CopyInto(buffer, offset + 4, value);
    }

    method WriteRecord(e: Entry) returns (ok: bool)
      modifies this`file, this`bytesWritten
      ensures ok <==> |Payload(e)| <= MAX_RECORD_SIZE
      ensures file == old(file) + if ok then Record(crc, FULL, Payload(e)) else []
      ensures bytesWritten == old(bytesWritten) + |file| - |old(file)|
    {
      var payload := FillPayload(e);
      ok := WriteRawRecord(FULL, payload);
    }

    /** Full middle fragments, then what is left as the last one. */
    method WriteFragments(data: Bytes)
      modifies this`file, this`bytesWritten
      ensures file == old(file) + Fragments(crc, data)
      ensures bytesWritten == old(bytesWritten) + |file| - |old(file)|
    {
      var remaining, ok := data, true;
      while |remaining| > MAX_RECORD_SIZE
        invariant file + Fragments(crc, remaining) == old(file) + Fragments(crc, data)
        invariant bytesWritten == old(bytesWritten) + |file| - |old(file)|
      {
        var chunk := remaining[..MAX_RECORD_SIZE];
        remaining := remaining[MAX_RECORD_SIZE..];
        Associates(file, Record(crc, MIDDLE, chunk), Fragments(crc, remaining));
        ok := WriteRawRecord(MIDDLE, chunk);
      }
      if |remaining| > 0 {
        ok := WriteRawRecord(LAST, remaining);
      }
    }

    method WriteFragmentedRecord(e: Entry)
      requires |Payload(e)| > MAX_RECORD_SIZE
      modifies this`file, this`bytesWritten
      ensures file == old(file) + EncodeEntry(crc, e)
      ensures bytesWritten == old(bytesWritten) + |file| - |old(file)|
    {
      var maxKeyInFirst := MAX_RECORD_SIZE - ENTRY_HEADER_SIZE;
      var keyInFirst := if |e.key| < maxKeyInFirst then |e.key| else maxKeyInFirst;
      var first := EntryHeader(e.sequence, e.opType, |e.key|) + e.key[..keyInFirst];
      var remaining: Bytes := e.key[keyInFirst..];
      if e.value.Some? {
        remaining := remaining + LittleEndian(|e.value.value|, 4);
        remaining := remaining + e.value.value;
      }
      FragmentedShape(e);
      assert first == Payload(e)[..FirstFragmentSize(e)];
      assert remaining == Payload(e)[FirstFragmentSize(e)..];
      var ok := WriteRawRecord(FIRST, first);
      WriteFragments(remaining);
      Associates(old(file), Record(crc, FIRST, first), Fragments(crc, remaining));
    }

    /** An entry of the log: appends its encoding, cut into fragments when it does not fit one record. */
    method WriteEntry(e: Entry)
      requires Valid() && ValidEntry(e)
      modifies this`file, this`bytesWritten, this`log
      ensures Valid() && log == old(log) + [e]
    {
      if |Payload(e)| <= MAX_RECORD_SIZE {
        var ok := WriteRecord(e);
      } else {
        WriteFragmentedRecord(e);
      }
      EncodeLogAppend(crc, log, e);
      log := log + [e];
    }

    method Append(opType: Byte, key: Bytes, value: Bytes) returns (result: Result<nat>)
      requires Valid() && |key| < TWO_32 && |value| < TWO_32
      modifies this
      ensures Valid() && status == old(status) && closed == old(closed)
      ensures result.Err? <==> status != Active || opType !in {PUT, DELETE, MERGE}
      ensures result.Err? ==> log == old(log) && nextSequence == old(nextSequence)
      ensures result.Ok? ==>
        && result.value == old(nextSequence)
        && nextSequence == AddUint64(old(nextSequence), 1)
        && log == old(log) + [Entry(result.value, opType, key, if opType == DELETE then None else Some(value))]
      // Unless the counter wrapped around, sequence numbers keep increasing.
      ensures old(IncreasingLog(log, nextSequence)) && old(nextSequence) <= nextSequence ==>
        IncreasingLog(log, nextSequence)
    {
      if status == Closed {
        return Err(WalClosed);
      }
      if status == Rotating {
        return Err(WalRotating);
      }
      if opType != PUT && opType != DELETE && opType != MERGE {
        return Err(Error.InvalidOpType);
      }
      var sequence := nextSequence;
      nextSequence := AddUint64(nextSequence, 1);
      var e := Entry(sequence, opType, key, if opType == DELETE then None else Some(value));
      if IncreasingLog(log, sequence) && sequence < nextSequence {
        IncreasingAppend(log, sequence, e, nextSequence);
      }
      WriteEntry(e);
      return Ok(sequence);
    }

    method FillOperation(op: Operation) returns (data: Bytes)
      ensures data == OperationBytes(op)
    {
      data := [op.opType] + LittleEndian(|op.key|, 4);
      data := data + op.key;
      if op.value.Some? {
        data := data + LittleEndian(|op.value.value|, 4);
        data := data + op.value.value;
      }
    }

    /** Lays the batch out: count, sequence number, operations. */
    method FillBatch(sequence: nat, ops: seq<Operation>) returns (data: Bytes)
      ensures data == BatchData(sequence, ops)
    {
      var operations: Bytes := [];
      for i := 0 to |ops|
        invariant operations == OperationsBytes(ops[..i])
      {
        var one := FillOperation(ops[i]);
        OperationsBytesAppend(ops[..i], ops[i]);
        assert ops[..i + 1] == ops[..i] + [ops[i]];
        operations := operations + one;
      }
      assert ops[..|ops|] == ops;
      data := LittleEndian(|ops|, 4) + LittleEndian(sequence, 8) + operations;
    }

    /**
      Batch.Write. The size test ignores the 17 bytes of entry framing, so a batch within 17
      bytes of the limit passes it, consumes its sequence numbers and then fails to be written.
    */
    method WriteBatch(ops: seq<Operation>) returns (result: Result<nat>)
      requires Valid() && ValidOperations(ops) && |ops| < TWO_32
      modifies this
      ensures Valid() && status == old(status) && closed == old(closed)
      ensures result.Ok? <==> ops != [] && !closed && |BatchData(0, ops)| + 17 <= MAX_RECORD_SIZE
      ensures result.Err? ==> log == old(log)
      ensures result.Err? ==> nextSequence ==
                                (if ops != [] && !closed && |BatchData(0, ops)| <= MAX_RECORD_SIZE
                                 then AddUint64(old(nextSequence), |ops|) else old(nextSequence))
      ensures result.Ok? ==>
        && result.value == old(nextSequence)
        && nextSequence == AddUint64(old(nextSequence), |ops|)
        && log == old(log) + [BatchEntry(result.value, ops)]
        && DecodeBatchSpec(log[|log| - 1]) == Decoded(result.value, ops)
      ensures old(IncreasingLog(log, nextSequence)) && old(nextSequence) <= nextSequence ==>
        IncreasingLog(log, nextSequence)
    {
      if ops == [] {
        return Err(EmptyBatch);
      }
      BatchSizes(nextSequence, ops);
      if |BatchData(0, ops)| > MAX_RECORD_SIZE {
        return Err(BatchTooLarge);
      }
      if closed {
        return Err(WalClosed);
      }
      var sequence := nextSequence;
      var data := FillBatch(sequence, ops);
      nextSequence := AddUint64(nextSequence, |ops|);
      if IncreasingLog(log, sequence) && sequence < nextSequence {
        IncreasingAppend(log, sequence, BatchEntry(sequence, ops), nextSequence);
        IncreasingSkip(log, sequence, nextSequence);
      }
      if |BatchData(0, ops)| + 17 > MAX_RECORD_SIZE {
        var ok := WriteRecord(BatchEntry(sequence, ops));
        return Err(RecordTooLarge);
      }
      WriteEntry(Entry(sequence, BATCH, data, Some([])));
      BatchDecodes(sequence, ops);
      return Ok(sequence);
    }
  }

  class Reader {
    const crc: Checksum
    var rest: Bytes              // bytes of the file not yet read
    var fragments: seq<Bytes>

    ghost function State(): ReaderState
      reads this
    {
      ReaderState(rest, fragments)
    }

    constructor (crc: Checksum, file: Bytes)
      ensures this.crc == crc && State() == ReaderState(file, [])
    {
      this.crc, rest, fragments := crc, file, [];
    }

    method ReadRecord() returns (result: RecordResult)
      modifies this`rest
      ensures (result, rest) == WalFormat.ReadRecord(crc, old(rest))
    {
      if |rest| < HEADER_SIZE {
        result := if |rest| == 0 then EndOfFile else CutShort;
        rest := [];
        return;
      }
      var header := rest[..HEADER_SIZE];
      rest := rest[HEADER_SIZE..];
      assert header[..4] == old(rest)[..4] && header[4..6] == old(rest)[4..6];
      var checksum := FromLittleEndian(header[..4]);
      var length := FromLittleEndian(header[4..6]);
      if header[6] < FULL || header[6] > LAST {
        return BadRecordType;
      }
      if |rest| < length {
        result := if |rest| == 0 then EndOfFile else CutShort;
        rest := [];
        return;
      }
      var data := rest[..length];
      rest := rest[length..];
      if crc(data) != checksum {
        return BadChecksum;
      }
      return ReadOne(header[6], data);
    }

    method Combine() returns (combined: Bytes)
      ensures combined == Concat(fragments)
    {
      combined := [];
      for i := 0 to |fragments|
        invariant combined == Concat(fragments[..i])
      {
        ConcatSnoc(fragments[..i], fragments[i]);
        assert fragments[..i + 1] == fragments[..i] + [fragments[i]];
        combined := combined + fragments[i];
      }
      assert fragments[..|fragments|] == fragments;
    }

    method ReadEntry() returns (result: EntryResult)
      modifies this
      ensures (result, State()) == WalFormat.ReadEntry(crc, old(State()))
    {
      while true
        invariant WalFormat.ReadEntry(crc, State()) == WalFormat.ReadEntry(crc, old(State()))
        decreases |rest|
      {
        ReadRecordShortens(crc, rest);
        var record := ReadRecord();
        match record
        case EndOfFile => return if |fragments| > 0 then UnfinishedFragments else Eof;
        case CutShort => return RecordError(record);
        case BadRecordType => return RecordError(record);
        case BadChecksum => return RecordError(record);
        case ReadOne(recordType, data) =>
          if recordType == FULL {
            return FromParse(ParseEntry(data));
          } else if recordType == FIRST {
            fragments := fragments + [data];
            if data == [] {
              return IndexPanic;
            }
          } else {
            if |fragments| == 0 {
              return StrayFragment;
            }
            fragments := fragments + [data];
            if recordType == LAST {
              var combined := Combine();
              fragments := [];
              return FromParse(ParseEntry(combined));
            }
          }
      }
    }
  }

  lemma ReadAllUnfolds(read: EntryReader, r: ReaderState, entries: seq<Entry>, stop: EntryResult)
    requires Shortens(read) && ReadAll(read, r) == (entries, stop)
    ensures var (result, r') := read(r);
      if result.Got? then
        |r'.rest| < |r.rest| && entries != [] && result.entry == entries[0] && ReadAll(read, r') == (entries[1..], stop)
      else entries == [] && result == stop
  {
  }

  /** A reader over any bytes: the entries it returns before its first failure, and that failure. */
  method ReadFile(crc: Checksum, file: Bytes) returns (entries: seq<Entry>, stop: EntryResult)
    ensures Shortens(ReaderFor(crc)) && (entries, stop) == ReadAll(ReaderFor(crc), ReaderState(file, []))
  {
    var reader := new Reader(crc, file);
    ReaderShortens(crc);
    entries := [];
    ghost var read := ReaderFor(crc);
    ghost var (all, end) := ReadAll(read, ReaderState(file, []));
    ghost var todo := all;
    while true
      invariant reader.crc == crc && ReadAll(read, reader.State()) == (todo, end) && entries + todo == all
      decreases |reader.rest|
    {
      var result := ReadOne(reader, read, todo, end);
      if !result.Got? {
        assert entries + [] == entries;
        return entries, result;
      }
      ShiftOne(entries, todo);
      entries, todo := entries + [result.entry], todo[1..];
    }
  }

  /** A log written by any calls and read by a fresh reader: the entries come back in order, then end of file. */
  method ReadBack(writer: Writer) returns (entries: seq<Entry>, stop: EntryResult)
    requires writer.Valid()
    ensures entries == writer.log && stop == Eof
  {
    LogReadsBack(writer.crc, writer.log);
    entries, stop := ReadFile(writer.crc, writer.file);
  }

  /** A log cut off at any byte: the entries that lie wholly before the cut come back, and nothing else. */
  method ReadCut(writer: Writer, n: nat) returns (entries: seq<Entry>, stop: EntryResult)
    requires writer.Valid() && n <= |writer.file|
    ensures Interrupted(stop)
    ensures |entries| <= |writer.log| && entries == writer.log[..|entries|]
    ensures |EncodeLog(writer.crc, entries)| <= n
    ensures |entries| < |writer.log| ==> n < |EncodeLog(writer.crc, writer.log[..|entries| + 1])|
  {
    PrefixReadsWholeEntries(writer.crc, writer.log, n);
    entries, stop := ReadFile(writer.crc, writer.file[..n]);
    ghost var k := WholeEntries(Encoder(writer.crc), writer.log, n);
    WholeEntriesMeaning(Encoder(writer.crc), writer.log, n, k);
    if k < |writer.log| {
      WholeEntriesMeaning(Encoder(writer.crc), writer.log, n, k + 1);
    }
  }

  /** One call of ReadEntry, when what is left of the file reads as `todo` and then `end`. */
  method ReadOne(reader: Reader, ghost read: EntryReader, ghost todo: seq<Entry>, ghost end: EntryResult)
    returns (result: EntryResult)
    requires read == ReaderFor(reader.crc) && Shortens(read) && ReadAll(read, reader.State()) == (todo, end)
    modifies reader
    ensures if result.Got? then
              |reader.rest| < old(|reader.rest|) && todo != [] && result.entry == todo[0]
              && ReadAll(read, reader.State()) == (todo[1..], end)
            else todo == [] && result == end
  {
    ReadAllUnfolds(read, reader.State(), todo, end);
    result := reader.ReadEntry();
  }
}
