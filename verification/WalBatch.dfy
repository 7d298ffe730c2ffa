/** Batches: the payload layout written by Batch.Write and the decoder that recovers the operations. */
module WalBatch {
  import opened Options
  import opened Bytes
  import opened Sequences
  import opened WalFormat

  /** count(4) + sequence(8) */
  const BATCH_HEADER_SIZE := 12

  datatype Operation = Operation(opType: Byte, key: Bytes, value: Option<Bytes>)

  ghost predicate ValidOperation(op: Operation) {
    && (op.opType == PUT || op.opType == DELETE || op.opType == MERGE)
    && |op.key| < TWO_32
    && (op.value.None? <==> op.opType == DELETE)
    && (op.value.Some? ==> |op.value.value| < TWO_32)
  }

  function OperationBytes(op: Operation): Bytes {
    [op.opType] + LittleEndian(|op.key|, 4) + op.key + ValueField(op.value)
  }

  function OperationsBytes(ops: seq<Operation>): Bytes {
    if ops == [] then [] else OperationBytes(ops[0]) + OperationsBytes(ops[1..])
  }

  function BatchData(sequence: nat, ops: seq<Operation>): Bytes {
    LittleEndian(|ops|, 4) + LittleEndian(sequence, 8) + OperationsBytes(ops)
  }

  /** A batch travels as an entry whose key field holds the batch data and whose value is empty. */
  function BatchEntry(sequence: nat, ops: seq<Operation>): Entry {
    Entry(sequence, BATCH, BatchData(sequence, ops), Some([]))
  }

  datatype OperationResult =
    | DecodedOne(op: Operation, rest: Bytes)
    | UnexpectedEnd
    | InvalidOpType
    | InvalidKeyLength
    | InvalidValueLength

  function DecodeOperation(data: Bytes): OperationResult {
    if |data| == 0 then UnexpectedEnd
    else if data[0] != PUT && data[0] != DELETE && data[0] != MERGE then InvalidOpType
    else if |data| < 5 then UnexpectedEnd
    else
      var keyLength := FromLittleEndian(data[1..5]);
      if 5 + keyLength > |data| then InvalidKeyLength
      else
        var key, tail := data[5..5 + keyLength], data[5 + keyLength..];
        if data[0] == DELETE then DecodedOne(Operation(data[0], key, None), tail)
        else if |tail| < 4 then UnexpectedEnd
        else
          var valueLength := FromLittleEndian(tail[..4]);
          if 4 + valueLength > |tail| then InvalidValueLength
          else DecodedOne(Operation(data[0], key, Some(tail[4..4 + valueLength])), tail[4 + valueLength..])
  }

  datatype BatchResult =
    | Decoded(sequence: nat, ops: seq<Operation>)
    | NotABatch
    | HeaderTooSmall
    | BadOperation(why: OperationResult)

  type OperationReader = Bytes -> OperationResult

  /** The loop over the operations, for any way of reading one. */
  function DecodeWith(read: OperationReader, data: Bytes, sequence: nat, done: seq<Operation>, count: nat): BatchResult
    decreases count
  {
    if count == 0 then Decoded(sequence, done)
    else match read(data)
      case DecodedOne(op, rest) => DecodeWith(read, rest, sequence, done + [op], count - 1)
      case failure => BadOperation(failure)
  }

  function Decoder(): OperationReader { data => DecodeOperation(data) }

  function DecodeOperations(data: Bytes, sequence: nat, done: seq<Operation>, count: nat): BatchResult {
    DecodeWith(Decoder(), data, sequence, done, count)
  }

  function DecodeBatchSpec(e: Entry): BatchResult {
    if e.opType != BATCH then NotABatch
    else if |e.key| < BATCH_HEADER_SIZE then HeaderTooSmall
    else DecodeOperations(e.key[BATCH_HEADER_SIZE..], FromLittleEndian(e.key[4..12]), [], FromLittleEndian(e.key[..4]))
  }

  lemma DecodedRestIsSuffix(data: Bytes)
    ensures var one := DecodeOperation(data);
      one.DecodedOne? ==> |one.rest| <= |data| && one.rest == data[|data| - |one.rest|..]
  {
  }

  lemma DecodeStep(data: Bytes, sequence: nat, done: seq<Operation>, count: nat, one: OperationResult)
    requires count > 0 && one == DecodeOperation(data)
    ensures DecodeOperations(data, sequence, done, count)
         == if one.DecodedOne? then DecodeOperations(one.rest, sequence, done + [one.op], count - 1)
             else BadOperation(one)
  {
  }

  /** One round of the loop, when `spec` is what is still to come from `offset` on. */
  method DecodeNext(data: Bytes, offset: nat, sequence: nat, ops: seq<Operation>, count: nat, ghost spec: BatchResult)
    returns (one: OperationResult, offset': nat)
    requires offset <= |data| && count > 0 && spec == DecodeOperations(data[offset..], sequence, ops, count)
    ensures offset <= offset' <= |data|
    ensures spec == if one.DecodedOne? then DecodeOperations(data[offset'..], sequence, ops + [one.op], count - 1)
                    else BadOperation(one)
  {
    one, offset' := TakeOperation(data, offset);
    DecodeStep(data[offset..], sequence, ops, count, one);
  }

  method TakeOperation(data: Bytes, offset: nat) returns (one: OperationResult, offset': nat)
    requires offset <= |data|
    ensures one == DecodeOperation(data[offset..])
    ensures offset <= offset' <= |data| && (one.DecodedOne? ==> data[offset'..] == one.rest)
  {
    var rest := data[offset..];
    one := DecodeOperation(rest);
    offset' := offset;
    if one.DecodedOne? {
      DecodedRestIsSuffix(rest);
      offset' := |data| - |one.rest|;
      SuffixOfSuffix(data, offset, |rest| - |one.rest|);
    }
  }

  lemma SuffixOfSuffix(data: Bytes, i: nat, j: nat)
    requires i + j <= |data|
    ensures data[i..][j..] == data[i + j..]
  {
  }

  method DecodeAll(data: Bytes, start: nat, sequence: nat, count: nat) returns (result: BatchResult)
    requires start <= |data|
    ensures result == DecodeOperations(data[start..], sequence, [], count)
  {
    ghost var spec := DecodeOperations(data[start..], sequence, [], count);
    var ops: seq<Operation>, offset := [], start;
    for i := 0 to count
      invariant offset <= |data| && spec == DecodeOperations(data[offset..], sequence, ops, count - i)
    {
      var one;
      one, offset := DecodeNext(data, offset, sequence, ops, count - i, spec);
      if !one.DecodedOne? {
        return BadOperation(one);
      }
      ops := ops + [one.op];
    }
    return Decoded(sequence, ops);
  }

  method DecodeBatch(e: Entry) returns (result: BatchResult)
    ensures result == DecodeBatchSpec(e)
  {
    if e.opType != BATCH {
      return NotABatch;
    }
    if |e.key| < BATCH_HEADER_SIZE {
      return HeaderTooSmall;
    }
    var count, sequence := FromLittleEndian(e.key[..4]), FromLittleEndian(e.key[4..12]);
    result := DecodeAll(e.key, BATCH_HEADER_SIZE, sequence, count);
  }

  // --- exactly what was written decodes --------------------------------------------------------------------

  /** The fields of an operation, where the decoder finds them, and the bytes behind it. */
  ghost predicate FieldsOf(data: Bytes, op: Operation, rest: Bytes) {
    && |data| >= 5 + |op.key| && op.opType == data[0] && op.opType in {PUT, DELETE, MERGE}
    && |op.key| == FromLittleEndian(data[1..5]) && op.key == data[5..5 + |op.key|]
    && (op.value.None? <==> op.opType == DELETE)
    && var tail := data[5 + |op.key|..];
       if op.value.None? then rest == tail
       else |tail| >= 4 + |op.value.value| && FromLittleEndian(tail[..4]) == |op.value.value|
            && op.value.value == tail[4..4 + |op.value.value|] && rest == tail[4 + |op.value.value|..]
  }

  lemma FieldsDecode(data: Bytes, op: Operation, rest: Bytes)
    ensures DecodeOperation(data) == DecodedOne(op, rest) <==> FieldsOf(data, op, rest)
  {
  }

  lemma FieldParts(head: Bytes, key: Bytes, field: Bytes, rest: Bytes)
    requires |head| == 5
    ensures var data := head + key + field + rest;
      && |data| == 5 + |key| + |field| + |rest| && data[..5] == head && data[5..5 + |key|] == key
      && data[5 + |key|..] == field + rest
  {
    Associates(head + key, field, rest);
    Slices(head, key, field + rest);
  }

  lemma OperationDecodes(op: Operation, tail: Bytes)
    requires ValidOperation(op)
    ensures DecodeOperation(OperationBytes(op) + tail) == DecodedOne(op, tail)
  {
    var data, head := OperationBytes(op) + tail, [op.opType] + LittleEndian(|op.key|, 4);
    Widths();
    FieldParts(head, op.key, ValueField(op.value), tail);
    LittleEndianRoundTrip(|op.key|, 4);
    assert data[0] == data[..5][0] && data[1..5] == data[..5][1..];
    if op.value.Some? {
      FieldReads(op.value.value, tail);
    }
    FieldsDecode(data, op, tail);
  }

  lemma FieldReads(value: Bytes, rest: Bytes)
    requires |value| < TWO_32
    ensures var tail := ValueField(Some(value)) + rest;
      FromLittleEndian(tail[..4]) == |value| && tail[4..4 + |value|] == value && tail[4 + |value|..] == rest
  {
    var tail := ValueField(Some(value)) + rest;
    Widths();
    LittleEndianRoundTrip(|value|, 4);
    assert tail[..4] == LittleEndian(|value|, 4);
  }

  /** An operation is decoded exactly when its bytes are what the data starts with. */
  lemma OperationExactly(data: Bytes, op: Operation, rest: Bytes)
    ensures DecodeOperation(data) == DecodedOne(op, rest) <==>
      ValidOperation(op) && data == OperationBytes(op) + rest
  {
    if DecodeOperation(data) == DecodedOne(op, rest) {
      FieldsDecode(data, op, rest);
      DecodedIsEncoded(data, op, rest);
    }
    if ValidOperation(op) && data == OperationBytes(op) + rest {
      OperationDecodes(op, rest);
    }
  }

  lemma DecodedIsEncoded(data: Bytes, op: Operation, rest: Bytes)
    requires FieldsOf(data, op, rest)
    ensures ValidOperation(op) && data == OperationBytes(op) + rest
  {
    var n := 5 + |op.key|;
    var tail, front := data[n..], [op.opType] + LittleEndian(|op.key|, 4) + op.key;
    Widths();
    FromLittleEndianRoundTrip(data[1..5]);
    Splits(data, 5, n);
    assert data[..5] == [data[0]] + data[1..5];
    if op.value.Some? {
      FromLittleEndianRoundTrip(tail[..4]);
      Splits(tail, 4, 4 + |op.value.value|);
    }
    assert tail == ValueField(op.value) + rest;
    assert data == front + tail;
    Associates(front, ValueField(op.value), rest);
  }

  ghost predicate ValidOperations(ops: seq<Operation>) {
    forall i :: 0 <= i < |ops| ==> ValidOperation(ops[i])
  }

  lemma OperationsHead(ops: seq<Operation>, tail: Bytes)
    requires ops != []
    ensures OperationsBytes(ops) + tail == OperationBytes(ops[0]) + (OperationsBytes(ops[1..]) + tail)
  {
    Associates(OperationBytes(ops[0]), OperationsBytes(ops[1..]), tail);
  }

  /** `read` finds an operation exactly where its bytes are. */
  ghost predicate FindsAt(read: OperationReader, data: Bytes, op: Operation, rest: Bytes) {
    read(data) == DecodedOne(op, rest) <==> ValidOperation(op) && data == OperationBytes(op) + rest
  }

  ghost predicate Finds(read: OperationReader) { forall data, op, rest :: FindsAt(read, data, op, rest) }

  lemma DecoderFinds()
    ensures Finds(Decoder())
  {
    forall data, op, rest ensures FindsAt(Decoder(), data, op, rest) {
      OperationExactly(data, op, rest);
    }
  }

  lemma {:induction false} OperationsDecode(read: OperationReader, ops: seq<Operation>, tail: Bytes, data: Bytes,
      sequence: nat, done: seq<Operation>)
    requires Finds(read) && ValidOperations(ops) && data == OperationsBytes(ops) + tail
    ensures DecodeWith(read, data, sequence, done, |ops|) == Decoded(sequence, done + ops)
    decreases |ops|
  {
    if ops == [] {
      assert done + [] == done;
    } else {
      var more := OperationsBytes(ops[1..]) + tail;
      OperationsHead(ops, tail);
      assert FindsAt(read, data, ops[0], more);
      OperationsDecode(read, ops[1..], tail, more, sequence, done + [ops[0]]);
      ShiftOne(done, ops);
    }
  }

  lemma ConsOperation(op: Operation, more: seq<Operation>, tail: Bytes, done: seq<Operation>)
    requires ValidOperation(op) && ValidOperations(more)
    ensures ValidOperations([op] + more) && done + [op] + more == done + ([op] + more)
    ensures OperationsBytes([op] + more) + tail == OperationBytes(op) + (OperationsBytes(more) + tail)
  {
    assert ([op] + more)[1..] == more;
    OperationsHead([op] + more, tail);
  }

  /** What decodes is operations laid end to end, as many as were counted. */
  lemma {:induction false} DecodedOperations(read: OperationReader, data: Bytes, sequence: nat, done: seq<Operation>,
      count: nat)
    returns (ops: seq<Operation>, tail: Bytes)
    requires Finds(read) && DecodeWith(read, data, sequence, done, count).Decoded?
    ensures DecodeWith(read, data, sequence, done, count) == Decoded(sequence, done + ops)
    ensures ValidOperations(ops) && |ops| == count && data == OperationsBytes(ops) + tail
    decreases count
  {
    if count == 0 {
      ops, tail := [], data;
      assert done + [] == done && [] + data == data;
    } else {
      var op, rest := read(data).op, read(data).rest;
      assert FindsAt(read, data, op, rest);
      var more;
      more, tail := DecodedOperations(read, rest, sequence, done + [op], count - 1);
      ops := [op] + more;
      ConsOperation(op, more, tail, done);
    }
  }

  lemma BatchParts(sequence: nat, ops: seq<Operation>, tail: Bytes)
    requires sequence < TWO_64 && |ops| < TWO_32
    ensures var data := BatchData(sequence, ops) + tail;
      && FromLittleEndian(data[..4]) == |ops| && FromLittleEndian(data[4..12]) == sequence
      && data[12..] == OperationsBytes(ops) + tail
  {
    var count, number := LittleEndian(|ops|, 4), LittleEndian(sequence, 8);
    Widths();
    LittleEndianRoundTrip(|ops|, 4);
    LittleEndianRoundTrip(sequence, 8);
    Associates(count + number, OperationsBytes(ops), tail);
    Slices(count, number, OperationsBytes(ops) + tail);
  }

  /** DecodeBatch recovers every batch from the entry that carries it, whatever follows the batch's data. */
  lemma BatchDecodesWith(sequence: nat, ops: seq<Operation>, e: Entry)
    requires sequence < TWO_64 && |ops| < TWO_32 && ValidOperations(ops)
    requires e.opType == BATCH && BatchData(sequence, ops) <= e.key
    ensures DecodeBatchSpec(e) == Decoded(sequence, ops)
  {
    var tail := e.key[|BatchData(sequence, ops)|..];
    assert e.key == BatchData(sequence, ops) + tail;
    BatchParts(sequence, ops, tail);
    DecoderFinds();
    OperationsDecode(Decoder(), ops, tail, OperationsBytes(ops) + tail, sequence, []);
    assert [] + ops == ops;
  }

  lemma BatchDecodes(sequence: nat, ops: seq<Operation>)
    requires sequence < TWO_64 && |ops| < TWO_32 && ValidOperations(ops)
    ensures DecodeBatchSpec(BatchEntry(sequence, ops)) == Decoded(sequence, ops)
  {
    BatchDecodesWith(sequence, ops, BatchEntry(sequence, ops));
  }

  /** And nothing else decodes: an entry gives a batch exactly when it carries that batch's data. */
  lemma BatchExactly(e: Entry, sequence: nat, ops: seq<Operation>)
    ensures DecodeBatchSpec(e) == Decoded(sequence, ops) <==>
      && e.opType == BATCH && sequence < TWO_64 && |ops| < TWO_32 && ValidOperations(ops)
      && BatchData(sequence, ops) <= e.key
  {
    if DecodeBatchSpec(e) == Decoded(sequence, ops) {
      DecodedBatch(e, sequence, ops);
    }
    if e.opType == BATCH && sequence < TWO_64 && |ops| < TWO_32 && ValidOperations(ops) &&
      BatchData(sequence, ops) <= e.key
    {
      BatchDecodesWith(sequence, ops, e);
    }
  }

  lemma DecodedBatch(e: Entry, sequence: nat, ops: seq<Operation>)
    requires DecodeBatchSpec(e) == Decoded(sequence, ops)
    ensures sequence < TWO_64 && |ops| < TWO_32 && ValidOperations(ops) && BatchData(sequence, ops) <= e.key
  {
    var count := FromLittleEndian(e.key[..4]);
    Widths();
    FromLittleEndianRoundTrip(e.key[..4]);
    FromLittleEndianRoundTrip(e.key[4..12]);
    DecoderFinds();
    var found, tail := DecodedOperations(Decoder(), e.key[12..], FromLittleEndian(e.key[4..12]), [], count);
    assert [] + found == found;
    Splits(e.key, 4, 12);
    Associates(e.key[..4] + e.key[4..12], OperationsBytes(ops), tail);
  }

  lemma {:induction false} OperationsBytesAppend(ops: seq<Operation>, op: Operation)
    ensures OperationsBytes(ops + [op]) == OperationsBytes(ops) + OperationBytes(op)
  {
    if ops == [] {
      assert [op][1..] == [];
    } else {
      OperationsBytesAppend(ops[1..], op);
      assert (ops + [op])[1..] == ops[1..] + [op];
    }
  }

  lemma {:induction false} OperationsLength(ops: seq<Operation>)
    ensures |ops| <= |OperationsBytes(ops)|
    ensures forall i :: 0 <= i < |ops| ==> |OperationBytes(ops[i])| <= |OperationsBytes(ops)|
  {
    if ops != [] {
      OperationsLength(ops[1..]);
      assert forall i :: 0 < i < |ops| ==> ops[i] == ops[1..][i - 1];
    }
  }
}
