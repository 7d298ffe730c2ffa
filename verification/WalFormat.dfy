/**
  The write-ahead log as bytes: how an entry is laid out and cut into records, and what a reader
  makes of an arbitrary byte stream. The checksum is any function from payloads to 32-bit words.
*/
module WalFormat {
  import opened Options
  import opened Bytes
  import opened Sequences

  const FULL: Byte := 1
  const FIRST: Byte := 2
  const MIDDLE: Byte := 3
  const LAST: Byte := 4

  const PUT: Byte := 1
  const DELETE: Byte := 2
  const MERGE: Byte := 3
  const BATCH: Byte := 4

  const HEADER_SIZE := 7
  const MAX_RECORD_SIZE := 32768
  /** type(1) + sequence(8) + key length(4) */
  const ENTRY_HEADER_SIZE := 13

  type Checksum = Bytes -> Word32

  /** A logical entry; deletions carry no value. */
  datatype Entry = Entry(sequence: nat, opType: Byte, key: Bytes, value: Option<Bytes>)

  ghost predicate ValidEntry(e: Entry) {
    && e.sequence < TWO_64
    && PUT <= e.opType <= BATCH
    && |e.key| < TWO_32
    && (e.value.None? <==> e.opType == DELETE)
    && (e.value.Some? ==> |e.value.value| < TWO_32)
  }

  /** What a store holds. */
  type Contents = map<Bytes, Bytes>

  /** The effect of an entry on a store: merges are applied as puts, and a batch entry as such has none. */
  function Effect(contents: Contents, e: Entry): Contents {
    if e.opType == DELETE then contents - {e.key}
    else if e.opType == BATCH then contents
    else contents[e.key := if e.value.Some? then e.value.value else []]
  }

  // --- printing -----------------------------------------------------------------------------------

  function EntryHeader(sequence: nat, opType: Byte, keyLength: nat): (r: Bytes)
    ensures |r| == ENTRY_HEADER_SIZE
  {
    [opType] + LittleEndian(sequence, 8) + LittleEndian(keyLength, 4)
  }

  function ValueField(value: Option<Bytes>): Bytes {
    match value
    case None => []
    case Some(v) => LittleEndian(|v|, 4) + v
  }

  function Payload(e: Entry): Bytes {
    EntryHeader(e.sequence, e.opType, |e.key|) + e.key + ValueField(e.value)
  }

  /** A physical record: checksum, length, type, data. */
  function Record(crc: Checksum, recordType: Byte, data: Bytes): (r: Bytes)
    ensures |r| == HEADER_SIZE + |data|
  {
    LittleEndian(crc(data), 4) + LittleEndian(|data|, 2) + [recordType] + data
  }

  /** Bytes of an entry in its first fragment: the header and as much of the key as fits. */
  function FirstFragmentSize(e: Entry): nat {
    ENTRY_HEADER_SIZE + if |e.key| < MAX_RECORD_SIZE - ENTRY_HEADER_SIZE then |e.key|
        else MAX_RECORD_SIZE - ENTRY_HEADER_SIZE
  }

  /** The fragments after the first: full middles, then what is left. */
  function Fragments(crc: Checksum, data: Bytes): Bytes {
    if |data| > MAX_RECORD_SIZE then
      Record(crc, MIDDLE, data[..MAX_RECORD_SIZE]) + Fragments(crc, data[MAX_RECORD_SIZE..])
    else if |data| > 0 then Record(crc, LAST, data)
    else []
  }

  function EncodeEntry(crc: Checksum, e: Entry): Bytes {
    var p := Payload(e);
    if |p| <= MAX_RECORD_SIZE then Record(crc, FULL, p)
    else Record(crc, FIRST, p[..FirstFragmentSize(e)]) + Fragments(crc, p[FirstFragmentSize(e)..])
  }

  function Encoder(crc: Checksum): Entry -> Bytes { e => EncodeEntry(crc, e) }

  /** Entries laid end to end, however each is encoded. */
  function Log(encode: Entry -> Bytes, entries: seq<Entry>): Bytes {
    if entries == [] then [] else encode(entries[0]) + Log(encode, entries[1..])
  }

  function EncodeLog(crc: Checksum, entries: seq<Entry>): Bytes { Log(Encoder(crc), entries) }

  // --- reading ------------------------------------------------------------------------------------

  datatype RecordResult =
    | ReadOne(recordType: Byte, data: Bytes)
    | EndOfFile               // nothing left to read
    | CutShort                // io.ErrUnexpectedEOF
    | BadRecordType
    | BadChecksum

  /** What readRecord returns and the bytes it leaves unread. */
  function ReadRecord(crc: Checksum, rest: Bytes): (RecordResult, Bytes) {
    if |rest| == 0 then (EndOfFile, [])
    else if |rest| < HEADER_SIZE then (CutShort, [])
    else
      var body := rest[HEADER_SIZE..];
      var length := FromLittleEndian(rest[4..6]);
      if rest[6] < FULL || rest[6] > LAST then (BadRecordType, body)
      else if length > 0 && |body| == 0 then (EndOfFile, [])
      else if |body| < length then (CutShort, [])
      else if crc(body[..length]) != FromLittleEndian(rest[..4]) then (BadChecksum, body[length..])
      else (ReadOne(rest[6], body[..length]), body[length..])
  }

  datatype ParseResult = Parsed(entry: Entry) | TooSmall | BadOpType | BadKeyLength | NoValueLength | BadValueLength

  function ParseEntry(data: Bytes): ParseResult {
    if |data| < ENTRY_HEADER_SIZE then TooSmall
    else
      var opType := data[0];
      if opType != PUT && opType != DELETE && opType != MERGE && opType != BATCH then BadOpType
      else
        var sequence := FromLittleEndian(data[1..9]);
        var keyLength := FromLittleEndian(data[9..13]);
        if ENTRY_HEADER_SIZE + keyLength > |data| then BadKeyLength
        else
          var key := data[ENTRY_HEADER_SIZE..ENTRY_HEADER_SIZE + keyLength];
          var tail := data[ENTRY_HEADER_SIZE + keyLength..];
          if opType == DELETE then Parsed(Entry(sequence, opType, key, None))
          else if |tail| < 4 then NoValueLength
          else
            var valueLength := FromLittleEndian(tail[..4]);
            if 4 + valueLength > |tail| then BadValueLength
            else Parsed(Entry(sequence, opType, key, Some(tail[4..4 + valueLength])))
  }

  datatype EntryResult =
    | Got(entry: Entry)
    | Eof
    | UnfinishedFragments       // end of file between fragments
    | StrayFragment             // middle or last record with no first one
    | Malformed(why: ParseResult)
    | RecordError(error: RecordResult)
    | IndexPanic                // first record without data

  datatype ReaderState = ReaderState(rest: Bytes, fragments: seq<Bytes>)

  function FromParse(p: ParseResult): EntryResult {
    if p.Parsed? then Got(p.entry) else Malformed(p)
  }

  lemma ReadRecordShortens(crc: Checksum, rest: Bytes)
    ensures ReadRecord(crc, rest).0.ReadOne? ==> |ReadRecord(crc, rest).1| < |rest|
  {
  }

  /** What ReadEntry returns, and the reader's state afterwards. */
  function ReadEntry(crc: Checksum, r: ReaderState): (EntryResult, ReaderState)
    decreases |r.rest|
  {
    var (record, rest) := ReadRecord(crc, r.rest);
    match record
    case EndOfFile => (if |r.fragments| > 0 then UnfinishedFragments else Eof, r.(rest := rest))
    case CutShort => (RecordError(record), r.(rest := rest))
    case BadRecordType => (RecordError(record), r.(rest := rest))
    case BadChecksum => (RecordError(record), r.(rest := rest))
    case ReadOne(recordType, data) =>
      ReadRecordShortens(crc, r.rest);
      if recordType == FULL then (FromParse(ParseEntry(data)), r.(rest := rest))
      else if recordType == FIRST then
        var r1 := ReaderState(rest, r.fragments + [data]);
        if data == [] then (IndexPanic, r1) else ReadEntry(crc, r1)
      else if |r.fragments| == 0 then (StrayFragment, r.(rest := rest))
      else if recordType == MIDDLE then ReadEntry(crc, ReaderState(rest, r.fragments + [data]))
      else (FromParse(ParseEntry(Concat(r.fragments + [data]))), ReaderState(rest, []))
  }

  lemma ReadEntryShortens(crc: Checksum, r: ReaderState)
    ensures ReadEntry(crc, r).0.Got? ==> |ReadEntry(crc, r).1.rest| < |r.rest|
    decreases |r.rest|
  {
    ReadRecordShortens(crc, r.rest);
  }

  type EntryReader = ReaderState -> (EntryResult, ReaderState)

  function ReaderFor(crc: Checksum): EntryReader { r => ReadEntry(crc, r) }

  ghost predicate Shortens(read: EntryReader) {
    forall r :: read(r).0.Got? ==> |read(r).1.rest| < |r.rest|
  }

  lemma ReaderShortens(crc: Checksum)
    ensures Shortens(ReaderFor(crc))
  {
    forall r | ReaderFor(crc)(r).0.Got? ensures |ReaderFor(crc)(r).1.rest| < |r.rest| {
      ReadEntryShortens(crc, r);
    }
  }

  /** The entries read before the first end of file or error, and that first failure. */
  function ReadAll(read: EntryReader, r: ReaderState): (seq<Entry>, EntryResult)
    requires Shortens(read)
    decreases |r.rest|
  {
    var (result, r') := read(r);
    if !result.Got? then ([], result)
    else
      var (entries, stop) := ReadAll(read, r');
      ([result.entry] + entries, stop)
  }
}
