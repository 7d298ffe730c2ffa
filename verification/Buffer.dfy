/** A transaction's write buffer: what its reads see, and what its commit applies. */
module Buffer {
  import opened Options
  import opened Bytes
  import WalFormat
  import Transactions

  /** A put, or a deletion when the value is None. */
  datatype Operation = Operation(key: Bytes, value: Option<Bytes>)

  type Contents = WalFormat.Contents
  type Writes = map<Bytes, Option<Bytes>>

  // --- the writes of a transaction, in the order it made them ----------------------------------------------------

  /** The pending write to each key after these operations: the last one. */
  ghost function WritesOf(ops: seq<Operation>): Writes {
    if ops == [] then map[]
    else WritesOf(ops[..|ops| - 1])[ops[|ops| - 1].key := ops[|ops| - 1].value]
  }

  function EntryOf(op: Operation): WalFormat.Entry {
    WalFormat.Entry(0, if op.value.None? then WalFormat.DELETE else WalFormat.PUT, op.key, op.value)
  }

  /** Storage after applying the operations one after the other. */
  ghost function InOrder(storage: Contents, ops: seq<Operation>): Contents {
    if ops == [] then storage
    else WalFormat.Effect(InOrder(storage, ops[..|ops| - 1]), EntryOf(ops[|ops| - 1]))
  }

  lemma OverlayOne(storage: Contents, writes: Writes, op: Operation)
    ensures WalFormat.Effect(Transactions.Overlay(storage, writes), EntryOf(op))
         == Transactions.Overlay(storage, writes[op.key := op.value])
  {
  }

  /** Overlaying the last write to each key is the same as making every write in turn. */
  lemma {:induction false} OverlayIsInOrder(storage: Contents, ops: seq<Operation>)
    ensures InOrder(storage, ops) == Transactions.Overlay(storage, WritesOf(ops))
  {
    if ops == [] {
      assert Transactions.Overlay(storage, map[]) == storage;
    } else {
      var n := |ops| - 1;
      OverlayIsInOrder(storage, ops[..n]);
      OverlayOne(storage, WritesOf(ops[..n]), ops[n]);
    }
  }

  // --- one operation per key, sorted -----------------------------------------------------------------------------

  ghost predicate KeySorted(ops: seq<Operation>) {
    forall i, j :: 0 <= i < j < |ops| ==> Less(ops[i].key, ops[j].key)
  }

  /** The list holds the pending write of each of these keys and nothing else. */
  ghost predicate Lists(ops: seq<Operation>, writes: Writes, keys: set<Bytes>) {
    && keys <= writes.Keys
    && (forall op :: op in ops ==> op.key in keys && op.value == writes[op.key])
    && (forall key :: key in keys ==> Operation(key, writes[key]) in ops)
  }

  /** A list that has the pending write of each key means exactly those writes, in whatever order. */
  lemma {:induction false} ListMeansWrites(ops: seq<Operation>, writes: Writes, key: Bytes)
    requires forall op :: op in ops ==> op.key in writes && op.value == writes[op.key]
    ensures key in WritesOf(ops) <==> exists op :: op in ops && op.key == key
    ensures key in WritesOf(ops) ==> key in writes && WritesOf(ops)[key] == writes[key]
  {
    if ops != [] {
      var n := |ops| - 1;
      assert forall op :: op in ops <==> op in ops[..n] || op == ops[n];
      ListMeansWrites(ops[..n], writes, key);
    }
  }

  lemma ListedWrites(ops: seq<Operation>, writes: Writes)
    requires Lists(ops, writes, writes.Keys)
    ensures WritesOf(ops) == writes
  {
    forall key ensures key in WritesOf(ops) <==> key in writes {
      ListMeansWrites(ops, writes, key);
      assert key in writes ==> Operation(key, writes[key]) in ops;
    }
    forall key | key in writes ensures WritesOf(ops)[key] == writes[key] {
      ListMeansWrites(ops, writes, key);
    }
  }

  lemma PutBetween(ops: seq<Operation>, op: Operation, k: nat)
    requires KeySorted(ops) && k <= |ops|
    requires forall i :: 0 <= i < k ==> Less(ops[i].key, op.key)
    requires forall i :: k <= i < |ops| ==> Less(op.key, ops[i].key)
    ensures KeySorted(ops[..k] + [op] + ops[k..])
  {
    var r := ops[..k] + [op] + ops[k..];
    forall i, j | 0 <= i < j < |r| ensures Less(r[i].key, r[j].key) {
      assert i < k ==> r[i] == ops[i];
      assert i > k ==> r[i] == ops[i - 1];
      assert j < k ==> r[j] == ops[j];
      assert j > k ==> r[j] == ops[j - 1];
    }
  }

  lemma InsertedMembers(ops: seq<Operation>, op: Operation, k: nat)
    requires k <= |ops|
    ensures forall x :: x in ops[..k] + [op] + ops[k..] <==> x in ops || x == op
  {
    assert ops == ops[..k] + ops[k..];
  }

  lemma AllBelow(ops: seq<Operation>, key: Bytes, k: nat)
    requires KeySorted(ops) && k <= |ops| && (k > 0 ==> Less(ops[k - 1].key, key))
    ensures forall i :: 0 <= i < k ==> Less(ops[i].key, key)
  {
    forall i | 0 <= i < k ensures Less(ops[i].key, key) {
      if i < k - 1 {
        LessTransitive(ops[i].key, ops[k - 1].key, key);
      }
    }
  }

  /** Inserts a new key at its place. */
  method InsertByKey(ops: seq<Operation>, op: Operation) returns (r: seq<Operation>)
    requires KeySorted(ops) && forall x :: x in ops ==> x.key != op.key
    ensures KeySorted(r) && forall x :: x in r <==> x in ops || x == op
    ensures |r| == |ops| + 1
  {
    var k := |ops|;
    while k > 0 && Less(op.key, ops[k - 1].key)
      invariant 0 <= k <= |ops| && forall i :: k <= i < |ops| ==> Less(op.key, ops[i].key)
    {
      k := k - 1;
    }
    if k > 0 {
      assert ops[k - 1] in ops;
      LessTotal(ops[k - 1].key, op.key);
    }
    AllBelow(ops, op.key, k);
    PutBetween(ops, op, k);
    InsertedMembers(ops, op, k);
    r := ops[..k] + [op] + ops[k..];
  }

  datatype ReadResult = Closed | Missing | Found(value: Bytes)

  class Buffer {
    var operations: map<Bytes, Operation>
    /** Every Put and Delete so far. */
    ghost var history: seq<Operation>

    ghost function Pending(): Writes
      reads this
    {
      map key | key in operations :: operations[key].value
    }

    ghost predicate Valid()
      reads this
    {
      && (forall key :: key in operations ==> operations[key].key == key)
      && Pending() == WritesOf(history)
    }

    constructor ()
      ensures Valid() && history == []
    {
      operations, history := map[], [];
    }

    method Record(op: Operation)
      requires Valid()
      modifies this
      ensures Valid() && history == old(history) + [op]
    {
      operations := operations[op.key := op];
      history := history + [op];
      assert history[..|history| - 1] == old(history);
      assert Pending() == old(Pending())[op.key := op.value];
    }

    method Put(key: Bytes, value: Bytes)
      requires Valid()
      modifies this
      ensures Valid() && history == old(history) + [Operation(key, Some(value))]
    {
      Record(Operation(key, Some(value)));
    }

    method Delete(key: Bytes)
      requires Valid()
      modifies this
      ensures Valid() && history == old(history) + [Operation(key, None)]
    {
      Record(Operation(key, None));
    }

    /** The pending value (None for a deletion) and whether there is a pending write. */
    method Get(key: Bytes) returns (value: Option<Bytes>, found: bool)
      requires Valid()
      ensures found <==> key in WritesOf(history)
      ensures value == if found then WritesOf(history)[key] else None
    {
      if key !in operations {
        return None, false;
      }
      assert key in Pending();
      return operations[key].value, true;
    }

    /** One operation per pending key, strictly sorted, whatever order the map yields them in. */
    method Operations() returns (ops: seq<Operation>)
      requires Valid()
      ensures KeySorted(ops) && Lists(ops, WritesOf(history), WritesOf(history).Keys)
      ensures |ops| == |operations|
    {
      ops := [];
      var rest := operations.Keys;
      while rest != {}
        invariant rest <= operations.Keys && |ops| + |rest| == |operations.Keys|
        invariant KeySorted(ops) && Lists(ops, Pending(), operations.Keys - rest)
      {
        var key :| key in rest;
        ops := InsertByKey(ops, operations[key]);
        rest := rest - {key};
      }
      assert operations.Keys - {} == operations.Keys == Pending().Keys;
    }

    /** A read inside the transaction: storage overlaid with every write made so far. */
    method Read(active: bool, storage: Contents, key: Bytes) returns (r: ReadResult)
      requires Valid()
      ensures r == if !active then Closed
                   else if key in InOrder(storage, history) then Found(InOrder(storage, history)[key])
                   else Missing
    {
      if !active {
        return Closed;
      }
      OverlayIsInOrder(storage, history);
      var value, found := Get(key);
      if found {
        return if value.None? then Missing else Found(value.value);
      }
      return if key in storage then Found(storage[key]) else Missing;
    }

    /** The batch that Commit hands to storage. Applying it gives what the transaction's own reads saw. */
    method Batch(ghost storage: Contents) returns (batch: seq<WalFormat.Entry>, ops: seq<Operation>)
      requires Valid()
      ensures KeySorted(ops) && Lists(ops, WritesOf(history), WritesOf(history).Keys)
      ensures batch == seq(|ops|, i requires 0 <= i < |ops| => EntryOf(ops[i]))
      ensures InOrder(storage, ops) == InOrder(storage, history)
    {
      ops := Operations();
      batch := [];
      for i := 0 to |ops|
        invariant |batch| == i && forall j :: 0 <= j < i ==> batch[j] == EntryOf(ops[j])
      {
        var op := ops[i];
        if op.value.None? {
          batch := batch + [WalFormat.Entry(0, WalFormat.DELETE, op.key, None)];
        } else {
          batch := batch + [WalFormat.Entry(0, WalFormat.PUT, op.key, op.value)];
        }
      }
      ListedWrites(ops, WritesOf(history));
      OverlayIsInOrder(storage, ops);
      OverlayIsInOrder(storage, history);
    }
  }
}
