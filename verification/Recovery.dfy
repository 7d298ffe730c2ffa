/**
  From the log to the memtable and back: what is logged, read back after a crash, and replayed is what lookups
  answer, whole calls at a time.
*/
module Recovery {
  import opened Options
  import opened Bytes
  import opened Sequences
  import opened WalFormat
  import opened WalBatch
  import opened Wal
  import SkipList
  import MemTable

  // --- what was logged -----------------------------------------------------------------------------------

  /** A call on the log: Append, or the Write of a batch. */
  datatype Call = AppendOne(opType: Byte, key: Bytes, value: Bytes) | WriteAll(ops: seq<Operation>)

  ghost predicate ValidCall(c: Call) {
    match c
    case AppendOne(_, key, value) => |key| < TWO_32 && |value| < TWO_32
    case WriteAll(ops) => ValidOperations(ops) && |ops| < TWO_32
  }

  /** The operations that a call logs; a call that is refused logs none. */
  ghost function Performed(c: Call): seq<Operation> {
    match c
    case AppendOne(opType, key, value) =>
      if opType in {PUT, DELETE, MERGE} then [Operation(opType, key, if opType == DELETE then None else Some(value))]
      else []
    case WriteAll(ops) => if |BatchData(0, ops)| + 17 <= MAX_RECORD_SIZE then ops else []
  }

  ghost function AllPerformed(calls: seq<Call>): seq<Operation> {
    if calls == [] then [] else AllPerformed(calls[..|calls| - 1]) + Performed(calls[|calls| - 1])
  }

  /** The last put or deletion of the key; merges are not replayed. */
  ghost function LastOperation(ops: seq<Operation>, key: Bytes): Option<Operation> {
    if ops == [] then None
    else
      var last := ops[|ops| - 1];
      if last.key == key && last.opType != MERGE then Some(last) else LastOperation(ops[..|ops| - 1], key)
  }

  /** What a lookup is to report: the value and true, nothing and true for a deletion, nothing and false otherwise. */
  function Expected(op: Option<Operation>): (Option<Bytes>, bool) {
    match op
    case None => (None, false)
    case Some(o) => (if o.opType == DELETE then None else o.value, true)
  }

  // --- what is replayed ------------------------------------------------------------------------------------

  ghost function Replay(log: seq<Entry>): seq<SkipList.Entry> {
    if log == [] then [] else Replay(log[..|log| - 1]) + MemTable.WalWrites(log[|log| - 1])
  }

  lemma ReplaySnoc(log: seq<Entry>, e: Entry)
    ensures Replay(log + [e]) == Replay(log) + MemTable.WalWrites(e)
  {
    assert (log + [e])[..|log|] == log;
  }

  ghost predicate Below(writes: seq<SkipList.Entry>, next: nat) {
    forall i :: 0 <= i < |writes| ==> writes[i].sequence < next
  }

  ghost predicate AnswersAs(writes: seq<SkipList.Entry>, ops: seq<Operation>, key: Bytes) {
    MemTable.Answer(MemTable.LastWrite(writes, key)) == Expected(LastOperation(ops, key))
  }

  /** Lookups over these writes answer as these operations demand. */
  ghost predicate Reflects(writes: seq<SkipList.Entry>, ops: seq<Operation>) {
    MemTable.Increasing(writes) && forall key :: AnswersAs(writes, ops, key)
  }

  lemma IncreasingSnoc(writes: seq<SkipList.Entry>, x: SkipList.Entry)
    requires MemTable.Increasing(writes) && Below(writes, x.sequence)
    ensures MemTable.Increasing(writes + [x])
  {
    forall i, j ensures MemTable.Follows(writes + [x], i, j) {
      assert MemTable.Follows(writes, i, j);
    }
  }

  lemma LastSnoc(writes: seq<SkipList.Entry>, x: SkipList.Entry, key: Bytes)
    ensures MemTable.LastWrite(writes + [x], key) == if x.key == key then Some(x) else MemTable.LastWrite(writes, key)
  {
    assert (writes + [x])[..|writes|] == writes;
  }

  lemma LastOperationSnoc(ops: seq<Operation>, op: Operation, key: Bytes)
    ensures LastOperation(ops + [op], key)
         == if op.key == key && op.opType != MERGE then Some(op) else LastOperation(ops, key)
  {
    assert (ops + [op])[..|ops|] == ops;
  }

  /**
    Replaying one put or deletion makes its key answer with it, a put with its value and a deletion with
    nothing, and leaves every other key's answer alone. A merge leaves all of them alone.
  */
  lemma OperationReplays(writes: seq<SkipList.Entry>, ops: seq<Operation>, op: Operation, number: nat)
    requires Reflects(writes, ops) && Below(writes, number) && ValidOperation(op)
    ensures var after := writes + MemTable.WriteOf(op.opType, op.key, op.value, number);
      Reflects(after, ops + [op]) && Below(after, number + 1)
  {
    var one := MemTable.WriteOf(op.opType, op.key, op.value, number);
    if op.opType != MERGE {
      IncreasingSnoc(writes, one[0]);
    } else {
      assert writes + one == writes;
    }
    forall key ensures AnswersAs(writes + one, ops + [op], key) {
      assert AnswersAs(writes, ops, key);
      LastOperationSnoc(ops, op, key);
      if op.opType != MERGE {
        LastSnoc(writes, one[0], key);
      }
    }
  }

  lemma OneMoreReplays(writes: seq<SkipList.Entry>, done: seq<Operation>, before: seq<SkipList.Entry>,
                       some: seq<Operation>, op: Operation, number: nat)
    requires Reflects(writes + before, done + some) && Below(writes + before, number) && ValidOperation(op)
    ensures var after := writes + (before + MemTable.WriteOf(op.opType, op.key, op.value, number));
      Reflects(after, done + (some + [op])) && Below(after, number + 1)
  {
    OperationReplays(writes + before, done + some, op, number);
    Associates(writes, before, MemTable.WriteOf(op.opType, op.key, op.value, number));
    Associates(done, some, [op]);
  }

  /** The operations of a batch replay one after the other, numbered from the batch's own number on. */
  lemma {:induction false} OperationsReplay(writes: seq<SkipList.Entry>, done: seq<Operation>, first: nat,
      ops: seq<Operation>)
    requires Reflects(writes, done) && Below(writes, first) && ValidOperations(ops) && first + |ops| <= TWO_64
    ensures var after := writes + MemTable.BatchWrites(first, ops);
      Reflects(after, done + ops) && Below(after, first + |ops|)
  {
    if ops == [] {
      assert writes + [] == writes && done + [] == done;
    } else {
      var n := |ops| - 1;
      OperationsReplay(writes, done, first, ops[..n]);
      OneMoreReplays(writes, done, MemTable.BatchWrites(first, ops[..n]), ops[..n], ops[n], first + n);
      assert ops[..n] + [ops[n]] == ops && (first + n) % TWO_64 == first + n;
    }
  }

  // --- the log that calls leave ------------------------------------------------------------------------------

  /** The entry that a call logs under the next number, if any. */
  ghost function LoggedBy(c: Call, next: nat): seq<Entry> {
    match c
    case AppendOne(opType, key, value) =>
      if opType in {PUT, DELETE, MERGE} then [Entry(next, opType, key, if opType == DELETE then None else Some(value))]
      else []
    case WriteAll(ops) =>
      if ops != [] && |BatchData(0, ops)| + 17 <= MAX_RECORD_SIZE then [BatchEntry(next, ops)] else []
  }

  /** The numbers that a call uses up: a batch may do so without being logged. */
  ghost function Used(c: Call): nat {
    match c
    case AppendOne(opType, _, _) => if opType in {PUT, DELETE, MERGE} then 1 else 0
    case WriteAll(ops) => if |BatchData(0, ops)| <= MAX_RECORD_SIZE then |ops| else 0
  }

  ghost function NextAfter(calls: seq<Call>): nat {
    if calls == [] then 1 else NextAfter(calls[..|calls| - 1]) + Used(calls[|calls| - 1])
  }

  ghost function LogAfter(calls: seq<Call>): seq<Entry> {
    if calls == [] then []
    else LogAfter(calls[..|calls| - 1]) + LoggedBy(calls[|calls| - 1], NextAfter(calls[..|calls| - 1]))
  }

  ghost predicate ValidCalls(calls: seq<Call>) {
    (forall i :: 0 <= i < |calls| ==> ValidCall(calls[i])) && NextAfter(calls) < TWO_64
  }

  lemma {:induction false} NumbersGrow(calls: seq<Call>, i: nat)
    requires i <= |calls|
    ensures NextAfter(calls[..i]) <= NextAfter(calls)
    decreases |calls|
  {
    if i < |calls| {
      assert calls[..|calls| - 1][..i] == calls[..i];
      NumbersGrow(calls[..|calls| - 1], i);
    } else {
      assert calls[..i] == calls;
    }
  }

  /** One call more, after calls that the log reflects. */
  lemma CallReplays(writes: seq<SkipList.Entry>, done: seq<Operation>, next: nat, c: Call)
    requires Reflects(writes, done) && Below(writes, next) && ValidCall(c) && next + Used(c) < TWO_64
    ensures var after := writes + Replay(LoggedBy(c, next));
      Reflects(after, done + Performed(c)) && Below(after, next + Used(c))
  {
    var logged := LoggedBy(c, next);
    if logged == [] {
      assert writes + [] == writes && done + [] == done;
    } else {
      ReplaySnoc([], logged[0]);
      assert [] + [logged[0]] == logged && [] + MemTable.WalWrites(logged[0]) == MemTable.WalWrites(logged[0]);
      match c
      case AppendOne(opType, key, value) =>
        OperationReplays(writes, done, Operation(opType, key, if opType == DELETE then None else Some(value)), next);
      case WriteAll(ops) =>
        BatchDecodes(next, ops);
        OperationsReplay(writes, done, next, ops);
    }
  }

  lemma {:induction false} ReplayConcat(a: seq<Entry>, b: seq<Entry>)
    ensures Replay(a + b) == Replay(a) + Replay(b)
  {
    if b == [] {
      assert a + b == a;
    } else {
      var n := |b| - 1;
      ReplayConcat(a, b[..n]);
      assert (a + b)[..|a + b| - 1] == a + b[..n];
      Associates(Replay(a), Replay(b[..n]), MemTable.WalWrites(b[n]));
    }
  }

  /** Replaying the log of any calls makes every key answer with the last operation that they logged for it. */
  lemma {:induction false} LogReflects(calls: seq<Call>)
    requires ValidCalls(calls)
    ensures Reflects(Replay(LogAfter(calls)), AllPerformed(calls)) && Below(Replay(LogAfter(calls)), NextAfter(calls))
  {
    if calls != [] {
      var n := |calls| - 1;
      var init := calls[..n];
      NumbersGrow(calls, n);
      LogReflects(init);
      CallReplays(Replay(LogAfter(init)), AllPerformed(init), NextAfter(init), calls[n]);
      ReplayConcat(LogAfter(init), LoggedBy(calls[n], NextAfter(init)));
    }
  }

  method LogOne(w: Writer, c: Call)
    requires w.Valid() && w.status == Active && !w.closed && ValidCall(c) && w.nextSequence + Used(c) < TWO_64
    modifies w
    ensures w.Valid() && w.status == Active && !w.closed
    ensures w.log == old(w.log) + LoggedBy(c, old(w.nextSequence)) && w.nextSequence == old(w.nextSequence) + Used(c)
  {
    match c
    case AppendOne(opType, key, value) =>
      var result := w.Append(opType, key, value);
    case WriteAll(ops) =>
      var result := w.WriteBatch(ops);
  }

  /** The first `i` calls have been made on the log. */
  ghost predicate Logged(w: Writer, calls: seq<Call>, i: nat)
    reads w
  {
    && w.Valid() && w.status == Active && !w.closed && i <= |calls|
    && w.log == LogAfter(calls[..i]) && w.nextSequence == NextAfter(calls[..i])
  }

  lemma CallStep(calls: seq<Call>, i: nat)
    requires ValidCalls(calls) && i < |calls|
    ensures LogAfter(calls[..i + 1]) == LogAfter(calls[..i]) + LoggedBy(calls[i], NextAfter(calls[..i]))
    ensures NextAfter(calls[..i]) + Used(calls[i]) == NextAfter(calls[..i + 1]) < TWO_64
  {
    assert calls[..i + 1][..i] == calls[..i];
    NumbersGrow(calls, i + 1);
  }

  method LogAt(w: Writer, calls: seq<Call>, i: nat)
    requires ValidCalls(calls) && i < |calls| && Logged(w, calls, i)
    modifies w
    ensures Logged(w, calls, i + 1)
  {
    CallStep(calls, i);
    LogOne(w, calls[i]);
  }

  /** Any calls on a new log, as long as the sequence numbers last. */
  method LogCalls(crc: Checksum, calls: seq<Call>) returns (w: Writer)
    requires ValidCalls(calls)
    ensures fresh(w) && w.Valid() && w.crc == crc && w.log == LogAfter(calls)
  {
    w := new Writer(crc);
    for i := 0 to |calls|
      invariant fresh(w) && w.crc == crc && Logged(w, calls, i)
    {
      LogAt(w, calls, i);
    }
    assert calls[..|calls|] == calls;
  }

  // --- recovery ------------------------------------------------------------------------------------------------

  /** The first `i` entries have been replayed into the table. */
  ghost predicate Replayed(table: MemTable.MemTable, entries: seq<Entry>, i: nat)
    reads table, table.list, table.list.chain
  {
    table.Valid() && !table.immutable && i <= |entries| && table.Writes() == Replay(entries[..i])
  }

  /** Replays the entries into the table, whatever heights are drawn. */
  method ReplayInto(table: MemTable.MemTable, entries: seq<Entry>, heights: (nat, nat) -> nat)
    requires Replayed(table, entries, 0) && forall i, j :: MemTable.Height(heights(i, j))
    modifies table`nextSeqNum, table.list, table.list.chain
    ensures Replayed(table, entries, |entries|)
  {
    for i := 0 to |entries|
      invariant Replayed(table, entries, i)
      invariant forall k :: 0 <= k < |table.list.chain| ==>
        table.list.chain[k] in old(table.list.chain) || fresh(table.list.chain[k])
    {
      ReplayAt(table, entries, i, j => heights(i, j));
    }
  }

  method ReplayAt(table: MemTable.MemTable, entries: seq<Entry>, i: nat, heights: nat -> nat)
    requires i < |entries| && Replayed(table, entries, i) && forall j :: MemTable.Height(heights(j))
    modifies table`nextSeqNum, table.list, table.list.chain
    ensures Replayed(table, entries, i + 1)
    ensures forall k :: 0 <= k < |table.list.chain| ==>
      table.list.chain[k] in old(table.list.chain) || fresh(table.list.chain[k])
  {
    ReplayStep(entries, i);
    ReplayNext(table, entries[i], heights, table.Writes());
  }

  lemma ReplayStep(entries: seq<Entry>, i: nat)
    requires i < |entries|
    ensures Replay(entries[..i + 1]) == Replay(entries[..i]) + MemTable.WalWrites(entries[i])
  {
    ReplaySnoc(entries[..i], entries[i]);
    assert entries[..i] + [entries[i]] == entries[..i + 1];
  }

  method ReplayNext(table: MemTable.MemTable, e: Entry, heights: nat -> nat, ghost before: seq<SkipList.Entry>)
    requires table.Valid() && !table.immutable && table.Writes() == before
    requires forall j :: MemTable.Height(heights(j))
    modifies table`nextSeqNum, table.list, table.list.chain
    ensures table.Valid() && table.Writes() == before + MemTable.WalWrites(e)
    ensures forall k :: 0 <= k < |table.list.chain| ==>
      table.list.chain[k] in old(table.list.chain) || fresh(table.list.chain[k])
  {
    var ok := table.ProcessWALEntry(e, heights);
    forall k | 0 <= k < |table.list.chain|
      ensures table.list.chain[k] in old(table.list.chain) || fresh(table.list.chain[k])
    {
      assert table.list.chain[k] in table.list.chain;
    }
  }

  method ReplayAll(entries: seq<Entry>, heights: (nat, nat) -> nat) returns (table: MemTable.MemTable)
    requires forall i, j :: MemTable.Height(heights(i, j))
    ensures table.Valid() && table.Writes() == Replay(entries)
  {
    table := new MemTable.MemTable();
    ReplayInto(table, entries, heights);
    assert entries[..|entries|] == entries;
  }

  /** Lookups in a table that stands for these operations. */
  method Ask(table: MemTable.MemTable, keys: seq<Bytes>, ghost ops: seq<Operation>)
    returns (answers: seq<(Option<Bytes>, bool)>)
    requires table.Valid() && Reflects(table.Writes(), ops)
    ensures |answers| == |keys|
    ensures forall i :: 0 <= i < |keys| ==> answers[i] == Expected(LastOperation(ops, keys[i]))
  {
    answers := [];
    for i := 0 to |keys|
      invariant |answers| == i
      invariant forall m :: 0 <= m < i ==> answers[m] == Expected(LastOperation(ops, keys[m]))
    {
      assert AnswersAs(table.Writes(), ops, keys[i]);
      var value, found := table.Get(keys[i]);
      answers := answers + [(value, found)];
    }
  }

  /** How many entries the first `i` calls log. */
  ghost function Count(calls: seq<Call>, i: nat): nat
    requires i <= |calls|
  {
    |LogAfter(calls[..i])|
  }

  /** The first `j` calls, and no more, log at most `k` entries. */
  ghost predicate LastWithin(calls: seq<Call>, k: nat, j: nat) {
    j <= |calls| && Count(calls, j) <= k && (j < |calls| ==> Count(calls, j + 1) > k)
  }

  lemma {:induction false} FindLast(calls: seq<Call>, k: nat, n: nat) returns (j: nat)
    requires n <= |calls| && (n < |calls| ==> Count(calls, n + 1) > k)
    ensures LastWithin(calls, k, j)
  {
    if Count(calls, n) <= k {
      j := n;
    } else {
      assert n > 0 by { assert calls[..0] == []; }
      j := FindLast(calls, k, n - 1);
    }
  }

  lemma {:induction false} LogGrows(calls: seq<Call>, i: nat)
    requires i <= |calls|
    ensures LogAfter(calls[..i]) <= LogAfter(calls)
    decreases |calls|
  {
    if i < |calls| {
      assert calls[..|calls| - 1][..i] == calls[..i];
      LogGrows(calls[..|calls| - 1], i);
    } else {
      assert calls[..i] == calls;
    }
  }

  lemma CountStep(calls: seq<Call>, i: nat)
    requires i < |calls|
    ensures Count(calls, i + 1) <= Count(calls, i) + 1
  {
    assert calls[..i + 1][..i] == calls[..i];
  }

  /** Since each call logs at most one entry, the first `k` entries are the log of exactly those calls. */
  lemma KeptIsExact(calls: seq<Call>, k: nat, j: nat)
    requires k <= |LogAfter(calls)| && LastWithin(calls, k, j)
    ensures LogAfter(calls[..j]) == LogAfter(calls)[..k]
  {
    LogGrows(calls, j);
    if j < |calls| {
      CountStep(calls, j);
    } else {
      assert calls[..j] == calls;
    }
  }

  /** The bytes of the log after the first `i` calls. */
  ghost function SizeAfter(crc: Checksum, calls: seq<Call>, i: nat): nat
    requires i <= |calls|
  {
    |EncodeLog(crc, LogAfter(calls[..i]))|
  }

  lemma {:induction false} SizesGrow(crc: Checksum, a: seq<Entry>, b: seq<Entry>)
    requires a <= b
    ensures |EncodeLog(crc, a)| <= |EncodeLog(crc, b)|
    decreases |a|
  {
    if a != [] {
      SizesGrow(crc, a[1..], b[1..]);
    }
  }

  /** Exactly the first `k` entries of the log were written in full before the cut. */
  ghost predicate CutAfter(crc: Checksum, log: seq<Entry>, k: nat, cut: nat) {
    && k <= |log| && |EncodeLog(crc, log[..k])| <= cut
    && (k < |log| ==> cut < |EncodeLog(crc, log[..k + 1])|)
  }

  /** A cut behind the end of the file is none. */
  lemma CutAtEnd(crc: Checksum, log: seq<Entry>, k: nat, cut: nat)
    requires CutAfter(crc, log, k, |EncodeLog(crc, log)|) && |EncodeLog(crc, log)| <= cut
    ensures CutAfter(crc, log, k, cut)
  {
    if k < |log| {
      SizesGrow(crc, log[..k + 1], log);
    }
  }

  lemma EarlierIsPrefix(calls: seq<Call>, i: nat, j: nat)
    requires i <= j <= |calls|
    ensures LogAfter(calls[..i]) <= LogAfter(calls[..j]) <= LogAfter(calls)
  {
    assert calls[..j][..i] == calls[..i];
    LogGrows(calls[..j], i);
    LogGrows(calls, j);
  }

  lemma CountDecides(calls: seq<Call>, k: nat, j: nat, i: nat)
    requires LastWithin(calls, k, j) && i <= |calls|
    ensures Count(calls, i) <= k <==> i <= j
  {
    if i <= j {
      EarlierIsPrefix(calls, i, j);
    } else {
      EarlierIsPrefix(calls, j + 1, i);
    }
  }

  /** A part of the log was written before the cut exactly when it has no more entries than were. */
  lemma SizeDecides(crc: Checksum, log: seq<Entry>, k: nat, cut: nat, part: seq<Entry>)
    requires CutAfter(crc, log, k, cut) && part <= log
    ensures |EncodeLog(crc, part)| <= cut <==> |part| <= k
  {
    if |part| <= k {
      SizesGrow(crc, part, log[..k]);
    } else {
      SizesGrow(crc, log[..k + 1], part);
    }
  }

  /** The calls kept are the ones that were written in full before the cut. */
  lemma KeptWereWritten(crc: Checksum, calls: seq<Call>, k: nat, cut: nat, j: nat, i: nat)
    requires CutAfter(crc, LogAfter(calls), k, cut) && LastWithin(calls, k, j) && i <= |calls|
    ensures SizeAfter(crc, calls, i) <= cut <==> i <= j
  {
    CountDecides(calls, k, j, i);
    LogGrows(calls, i);
    SizeDecides(crc, LogAfter(calls), k, cut, LogAfter(calls[..i]));
  }

  /** Reads what a log that was cut off at any byte still holds, and replays it. */
  method RecoverCut(crc: Checksum, calls: seq<Call>, cut: nat, heights: (nat, nat) -> nat)
    returns (table: MemTable.MemTable, ghost k: nat)
    requires ValidCalls(calls) && forall i, j :: MemTable.Height(heights(i, j))
    ensures CutAfter(crc, LogAfter(calls), k, cut)
    ensures table.Valid() && table.Writes() == Replay(LogAfter(calls)[..k])
  {
    var w := LogCalls(crc, calls);
    var entries, stop;
    if cut < |w.file| {
      entries, stop := ReadCut(w, cut);
    } else {
      entries, stop := ReadCut(w, |w.file|);
      CutAtEnd(crc, w.log, |entries|, cut);
    }
    k := |entries|;
    table := ReplayAll(entries, heights);
  }

  /** Log, read back, replay, look up: the answer is the last operation logged for the key. */
  method GetAfterRestart(crc: Checksum, calls: seq<Call>, heights: (nat, nat) -> nat, key: Bytes)
    returns (value: Option<Bytes>, found: bool)
    requires ValidCalls(calls) && forall i, j :: MemTable.Height(heights(i, j))
    ensures (value, found) == Expected(LastOperation(AllPerformed(calls), key))
  {
    var w := LogCalls(crc, calls);
    var entries, stop := ReadBack(w);
    LogReflects(calls);
    var table := ReplayAll(entries, heights);
    assert AnswersAs(table.Writes(), AllPerformed(calls), key);
    value, found := table.Get(key);
  }

  /**
    Crash atomicity and durability: if the log is cut off at any byte, lookups after the restart answer as
    after exactly those calls whose bytes were all written, and no batch is recovered in part.
  */
  method GetAfterCrash(crc: Checksum, calls: seq<Call>, cut: nat, heights: (nat, nat) -> nat, keys: seq<Bytes>)
    returns (answers: seq<(Option<Bytes>, bool)>, ghost kept: nat)
    requires ValidCalls(calls) && forall i, j :: MemTable.Height(heights(i, j))
    ensures kept <= |calls| && |answers| == |keys|
    ensures forall i :: 0 <= i <= |calls| ==> (SizeAfter(crc, calls, i) <= cut <==> i <= kept)
    ensures forall i :: 0 <= i < |keys| ==> answers[i] == Expected(LastOperation(AllPerformed(calls[..kept]), keys[i]))
  {
    var table;
    ghost var k;
    table, k := RecoverCut(crc, calls, cut, heights);
    kept := FindLast(calls, k, |calls|);
    forall i | 0 <= i <= |calls| ensures SizeAfter(crc, calls, i) <= cut <==> i <= kept {
      KeptWereWritten(crc, calls, k, cut, kept, i);
    }
    KeptReflects(calls, k, kept);
    answers := Ask(table, keys, AllPerformed(calls[..kept]));
  }

  lemma KeptReflects(calls: seq<Call>, k: nat, j: nat)
    requires ValidCalls(calls) && k <= |LogAfter(calls)| && LastWithin(calls, k, j)
    ensures Reflects(Replay(LogAfter(calls)[..k]), AllPerformed(calls[..j]))
  {
    KeptIsExact(calls, k, j);
    NumbersGrow(calls, j);
    LogReflects(calls[..j]);
  }
}
