/** Memtables over the skip list, and the pool of one active and several frozen tables. */
module MemTable {
  import opened Options
  import opened Bytes
  import opened Sequences
  import opened SkipList
  import WalFormat
  import WalBatch

  /** The last write to the key, in the order the writes were made. */
  ghost function LastWrite(history: seq<Entry>, key: Bytes): Option<Entry> {
    if history == [] then None
    else
      var last := history[|history| - 1];
      if last.key == key then Some(last) else LastWrite(history[..|history| - 1], key)
  }

  ghost predicate Follows(history: seq<Entry>, i: int, j: int) {
    0 <= i < j < |history| ==> history[i].sequence < history[j].sequence
  }

  ghost predicate Increasing(history: seq<Entry>) {
    forall i, j {:trigger Follows(history, i, j)} :: Follows(history, i, j)
  }

  lemma {:induction false} LastWriteIsNewest(history: seq<Entry>, key: Bytes)
    requires Increasing(history)
    ensures LastWrite(history, key).None? <==> forall x :: x in history ==> x.key != key
    ensures LastWrite(history, key).Some? ==>
      var e := LastWrite(history, key).value;
      e in history && e.key == key && forall x :: x in history && x.key == key ==> x.sequence <= e.sequence
  {
    if history != [] {
      var n := |history| - 1;
      if history[n].key != key {
        IncreasingParts(history[..n], [history[n]]) by { assert history == history[..n] + [history[n]]; }
        LastWriteIsNewest(history[..n], key);
        assert forall x :: x in history <==> x == history[n] || x in history[..n];
      } else {
        forall x | x in history ensures x.sequence <= history[n].sequence {
          var i :| 0 <= i < |history| && history[i] == x;
          assert Follows(history, i, n);
        }
      }
    }
  }

  lemma {:induction false} LastWriteConcat(a: seq<Entry>, b: seq<Entry>, key: Bytes)
    ensures LastWrite(a + b, key) == if LastWrite(b, key).Some? then LastWrite(b, key) else LastWrite(a, key)
  {
    if b == [] {
      assert a + b == a;
    } else {
      var n := |b| - 1;
      assert (a + b)[..|a + b| - 1] == a + b[..n];
      LastWriteConcat(a, b[..n], key);
    }
  }

  lemma SequencesAreUnique(history: seq<Entry>, x: Entry, y: Entry)
    requires Increasing(history) && x in history && y in history && x.sequence == y.sequence
    ensures x == y
  {
    var i :| 0 <= i < |history| && history[i] == x;
    var j :| 0 <= j < |history| && history[j] == y;
    assert Follows(history, i, j) && Follows(history, j, i);
  }

  lemma SameMembers(a: seq<Entry>, b: seq<Entry>)
    requires multiset(a) == multiset(b)
    ensures forall x :: x in a <==> x in b
  {
    assert forall x :: x in a <==> x in multiset(a);
    assert forall x :: x in b <==> x in multiset(b);
  }

  /** A sorted table that holds exactly these writes answers with the last one. */
  lemma TableAnswersLastWrite(contents: seq<Entry>, history: seq<Entry>, key: Bytes)
    requires Sorted(contents) && Increasing(history) && multiset(contents) == multiset(history)
    ensures Newest(contents, key) == LastWrite(history, key)
  {
    var a, b := Newest(contents, key), LastWrite(history, key);
    NewestIsNewest(contents, key);
    LastWriteIsNewest(history, key);
    SameMembers(contents, history);
    if a.Some? && b.Some? {
      assert a.value.sequence <= b.value.sequence <= a.value.sequence;
      SequencesAreUnique(history, a.value, b.value);
    }
  }

  // --- writes replayed from the log ---------------------------------------------------------------------------

  function WriteOf(opType: Byte, key: Bytes, value: Option<Bytes>, sequence: nat): seq<Entry> {
    if opType == WalFormat.PUT then [Entry(key, if value.Some? then value.value else [], false, sequence)]
    else if opType == WalFormat.DELETE then [Entry(key, [], true, sequence)]
    else []
  }

  /** The operations of a batch are numbered from the batch's sequence number on, as uint64; merges are skipped. */
  function BatchWrites(sequence: nat, ops: seq<WalBatch.Operation>): seq<Entry> {
    if ops == [] then []
    else
      var n := |ops| - 1;
      BatchWrites(sequence, ops[..n]) + WriteOf(ops[n].opType, ops[n].key, ops[n].value, (sequence + n) % TWO_64)
  }

  lemma BatchWritesStep(sequence: nat, ops: seq<WalBatch.Operation>, i: nat)
    requires i < |ops|
    ensures BatchWrites(sequence, ops[..i + 1])
         == BatchWrites(sequence, ops[..i]) + WriteOf(ops[i].opType, ops[i].key, ops[i].value, (sequence + i) % TWO_64)
  {
    assert ops[..i + 1][..i] == ops[..i];
  }

  function WalWrites(e: WalFormat.Entry): seq<Entry> {
    if e.opType == WalFormat.BATCH then
      match WalBatch.DecodeBatchSpec(e)
      case Decoded(sequence, ops) => BatchWrites(sequence, ops)
      case _ => []
    else WriteOf(e.opType, e.key, e.value, e.sequence)
  }

  /** The write that operation `i` of a batch makes. */
  function NumberedWrite(sequence: nat, op: WalBatch.Operation, i: nat): Entry {
    Entry(op.key, if op.value.Some? then op.value.value else [], op.value.None?, sequence + i)
  }

  lemma {:induction false} BatchWritesInOrder(sequence: nat, ops: seq<WalBatch.Operation>)
    requires WalBatch.ValidOperations(ops) && sequence + |ops| <= TWO_64
    requires forall i :: 0 <= i < |ops| ==> ops[i].opType != WalFormat.MERGE
    ensures |BatchWrites(sequence, ops)| == |ops|
    ensures forall i :: 0 <= i < |ops| ==> BatchWrites(sequence, ops)[i] == NumberedWrite(sequence, ops[i], i)
  {
    if ops != [] {
      var n := |ops| - 1;
      BatchWritesInOrder(sequence, ops[..n]);
      assert WalBatch.ValidOperation(ops[n]);
    }
  }

  /** Replaying the entry that a batch was written as makes the batch's writes, in order and numbered consecutively. */
  lemma BatchReplays(sequence: nat, ops: seq<WalBatch.Operation>)
    requires WalBatch.ValidOperations(ops) && |ops| < TWO_32 && sequence < TWO_64 && sequence + |ops| <= TWO_64
    requires forall i :: 0 <= i < |ops| ==> ops[i].opType != WalFormat.MERGE
    ensures var writes := WalWrites(WalBatch.BatchEntry(sequence, ops));
      && |writes| == |ops| && Increasing(writes)
      && forall i :: 0 <= i < |ops| ==> writes[i] == NumberedWrite(sequence, ops[i], i)
  {
    WalBatch.BatchDecodes(sequence, ops);
    BatchWritesInOrder(sequence, ops);
    assert forall i, j :: Follows(BatchWrites(sequence, ops), i, j);
  }

  predicate Height(h: nat) { 1 <= h <= MAX_HEIGHT }

  /** A memtable and the skip list it owns. */
  class MemTable {
    const list: SkipList
    var nextSeqNum: nat
    var immutable: bool

    /** The writes this table took, in order. */
    ghost function Writes(): seq<Entry>
      reads list
    {
      list.inserted
    }

    ghost predicate Valid()
      reads list, list.chain
    {
      list.Valid() && list.HoldsInserted()
    }

    constructor ()
      ensures Valid() && Writes() == [] && !immutable && fresh(list) && fresh(list.chain)
    {
      list := new SkipList();
      nextSeqNum, immutable := 0, false;
    }

    /** Put and Delete, with the height drawn for the new node: a frozen table ignores writes. */
    method Insert(e: Entry, height: nat)
      requires Valid() && Height(height)
      modifies this`nextSeqNum, list, list.chain
      ensures Valid() && Writes() == old(Writes()) + if immutable then [] else [e]
      ensures immutable ==> list.Entries() == old(list.Entries())
      ensures forall n :: n in list.chain ==> n in old(list.chain) || fresh(n)
      ensures nextSeqNum == if !immutable && e.sequence > old(nextSeqNum) then e.sequence + 1 else old(nextSeqNum)
    {
      if immutable {
        return;
      }
      if e.sequence > nextSeqNum {
        nextSeqNum := e.sequence + 1;
      }
      list.Insert(e, height);
    }

    /** The value (None for a tombstone) and whether the key was found: the last write to the key. */
    method Get(key: Bytes) returns (value: Option<Bytes>, found: bool)
      requires Valid() && Increasing(Writes())
      ensures (value, found) == Answer(LastWrite(Writes(), key))
      ensures match LastWrite(Writes(), key)
        case None => value == None && !found
        case Some(e) => value == (if e.deletion then None else Some(e.value)) && found
    {
      TableAnswersLastWrite(list.Entries(), Writes(), key);
      var e := list.Find(key);
      match e
      case None => return None, false;
      case Some(entry) => return if entry.deletion then None else Some(entry.value), true;
    }

    /** Replay of one log entry; a batch that does not decode changes nothing and is reported. */
    method ProcessWALEntry(e: WalFormat.Entry, heights: nat -> nat) returns (ok: bool)
      requires Valid() && forall i :: Height(heights(i))
      modifies this`nextSeqNum, list, list.chain
      ensures Valid() && forall n :: n in list.chain ==> n in old(list.chain) || fresh(n)
      ensures ok <==> e.opType == WalFormat.BATCH ==> WalBatch.DecodeBatchSpec(e).Decoded?
      ensures Writes() == old(Writes()) + if immutable then [] else WalWrites(e)
    {
      if e.opType != WalFormat.BATCH {
        ProcessOne(e.opType, e.key, e.value, e.sequence, heights(0));
        return true;
      }
      var batch := WalBatch.DecodeBatch(e);
      if !batch.Decoded? {
        return false;
      }
      ProcessBatch(batch.sequence, batch.ops, heights);
      return true;
    }

    method ProcessOne(opType: Byte, key: Bytes, value: Option<Bytes>, sequence: nat, height: nat)
      requires Valid() && Height(height)
      modifies this`nextSeqNum, list, list.chain
      ensures Valid() && forall n :: n in list.chain ==> n in old(list.chain) || fresh(n)
      ensures Writes() == old(Writes()) + if immutable then [] else WriteOf(opType, key, value, sequence)
    {
      if opType == WalFormat.PUT {
        Insert(Entry(key, if value.Some? then value.value else [], false, sequence), height);
      } else if opType == WalFormat.DELETE {
        Insert(Entry(key, [], true, sequence), height);
      }
    }

    method ProcessBatch(sequence: nat, ops: seq<WalBatch.Operation>, heights: nat -> nat)
      requires Valid() && forall i :: Height(heights(i))
      modifies this`nextSeqNum, list, list.chain
      ensures Valid() && forall n :: n in list.chain ==> n in old(list.chain) || fresh(n)
      ensures Writes() == old(Writes()) + if immutable then [] else BatchWrites(sequence, ops)
    {
      for i := 0 to |ops|
        invariant Valid() && forall k :: 0 <= k < |list.chain| ==>
          list.chain[k] in old(list.chain) || fresh(list.chain[k])
        invariant Writes() == old(Writes()) + if immutable then [] else BatchWrites(sequence, ops[..i])
      {
        ProcessAt(sequence, ops, i, heights(i), old(Writes()));
      }
      assert ops[..|ops|] == ops;
    }

    /** Operation `i` of a batch. */
    method ProcessAt(sequence: nat, ops: seq<WalBatch.Operation>, i: nat, height: nat, ghost before: seq<Entry>)
      requires Valid() && Height(height) && i < |ops|
      requires Writes() == before + if immutable then [] else BatchWrites(sequence, ops[..i])
      modifies this`nextSeqNum, list, list.chain
      ensures Valid() && Writes() == before + if immutable then [] else BatchWrites(sequence, ops[..i + 1])
      ensures forall k :: 0 <= k < |list.chain| ==> list.chain[k] in old(list.chain) || fresh(list.chain[k])
    {
      var op, number := ops[i], (sequence + i) % TWO_64;
      BatchWritesStep(sequence, ops, i);
      Associates(before, BatchWrites(sequence, ops[..i]), WriteOf(op.opType, op.key, op.value, number));
      ProcessOne(op.opType, op.key, op.value, number, height);
      forall k | 0 <= k < |list.chain| ensures list.chain[k] in old(list.chain) || fresh(list.chain[k]) {
        assert list.chain[k] in list.chain;
      }
    }

    method SetImmutable()
      modifies this`immutable
      ensures immutable
    {
      immutable := true;
    }
  }

  /** What a lookup reports for the write it found. */
  function Answer(write: Option<Entry>): (Option<Bytes>, bool) {
    match write
    case None => (None, false)
    case Some(e) => (if e.deletion then None else Some(e.value), true)
  }

  lemma IncreasingParts(a: seq<Entry>, b: seq<Entry>)
    requires Increasing(a + b)
    ensures Increasing(a) && Increasing(b)
  {
    forall i, j ensures Follows(a, i, j) && Follows(b, i, j) {
      assert Follows(a + b, i, j) && Follows(a + b, |a| + i, |a| + j);
    }
  }

  /** What the newest of the first `i + 1` segments contributes to a lookup. */
  lemma SegmentStep(segments: seq<seq<Entry>>, i: nat, key: Bytes)
    requires i < |segments| && Increasing(Concat(segments[..i + 1]))
    ensures Increasing(Concat(segments[..i])) && Increasing(segments[i])
    ensures LastWrite(Concat(segments[..i + 1]), key)
         == if LastWrite(segments[i], key).Some? then LastWrite(segments[i], key)
             else LastWrite(Concat(segments[..i]), key)
  {
    assert segments[..i + 1] == segments[..i] + [segments[i]];
    ConcatSnoc(segments[..i], segments[i]);
    IncreasingParts(Concat(segments[..i]), segments[i]);
    LastWriteConcat(Concat(segments[..i]), segments[i], key);
  }

  /** Two tables that share neither their list nor a node of it. */
  ghost predicate Apart(a: MemTable, b: MemTable)
    reads a.list, b.list
  {
    a != b && a.list != b.list && forall n :: n in a.list.chain ==> n !in b.list.chain
  }

  /** What a list is made of when its table is frozen. */
  datatype Snapshot = Snapshot(chain: seq<Node>, links: Links, maxHeight: nat, inserted: seq<Entry>)

  ghost function Snap(list: SkipList): Snapshot
    reads list
  {
    Snapshot(list.chain, list.links, list.maxHeight, list.inserted)
  }

  ghost predicate Good(head: Node, f: Snapshot) {
    && Proper(head, f.chain, f.links, f.maxHeight)
    && f.chain != [] && multiset(EntriesOf(f.chain[1..])) == multiset(f.inserted)
  }

  ghost function Segments(frozen: seq<Snapshot>): (r: seq<seq<Entry>>)
    ensures |r| == |frozen| && forall i :: 0 <= i < |frozen| ==> r[i] == frozen[i].inserted
  {
    seq(|frozen|, i requires 0 <= i < |frozen| => frozen[i].inserted)
  }

  class Pool {
    var active: MemTable
    var immutables: seq<MemTable>
    /** Each frozen table's list as it was when the table was frozen, oldest table first. */
    ghost var frozen: seq<Snapshot>
    /** All writes that the frozen tables hold, in order. */
    ghost var past: seq<Entry>

    /** Frozen table `i` is still what it was, node by node, and the active table does not touch it. */
    ghost predicate FrozenAt(i: nat)
      requires i < |immutables| == |frozen|
      reads this, immutables[i], immutables[i].list, immutables[i].list.chain, active.list
    {
      var t := immutables[i];
      t.immutable && t.list.Current() && Snap(t.list) == frozen[i] && Apart(t, active)
    }

    /** Every frozen list is as recorded. */
    ghost predicate AllFrozen()
      reads *
    {
      |frozen| == |immutables| && forall i :: 0 <= i < |immutables| ==> FrozenAt(i)
    }

    ghost predicate AllGood()
      reads this`immutables, this`frozen, this`past
    {
      |frozen| == |immutables| && past == Concat(Segments(frozen)) && forall i :: 0 <= i < |immutables| ==> GoodAt(i)
    }

    ghost predicate GoodAt(i: nat)
      requires i < |immutables| == |frozen|
      reads this`immutables, this`frozen
    {
      Good(immutables[i].list.head, frozen[i])
    }

    ghost function History(): seq<Entry>
      reads this, active.list
    {
      past + active.Writes()
    }

    ghost predicate Valid()
      reads *
    {
      AllGood() && AllFrozen() && active.Valid() && !active.immutable
    }

    constructor ()
      ensures Valid() && History() == []
    {
      active := new MemTable();
      immutables, frozen, past := [], [], [];
    }

    /** Put and Delete; the write comes last in the history, and frozen tables are not touched. */
    method Write(e: Entry, height: nat)
      requires Valid() && Height(height)
      modifies active`nextSeqNum, active.list, active.list.chain
      ensures Valid()
      ensures History() == old(History()) + [e]
    {
      ghost var before, writes := past, active.Writes();
      WriteActive(e, height);
      assert AllGood();
      Associates(before, writes, [e]);
    }

    /** The write reaches the active table alone: every frozen list stays as recorded, node by node. */
    method WriteActive(e: Entry, height: nat)
      requires AllFrozen() && active.Valid() && !active.immutable && Height(height)
      modifies active`nextSeqNum, active.list, active.list.chain
      ensures AllFrozen() && active.Valid() && active.Writes() == old(active.Writes()) + [e]
    {
      active.Insert(e, height);
      forall i | 0 <= i < |immutables| ensures FrozenAt(i) {
        assert old(FrozenAt(i));
        var nodes := immutables[i].list.chain;
        forall k | 0 <= k < |nodes| ensures nodes[k].next == old(nodes[k].next) {
          assert nodes[k] in nodes;
        }
        assert LinksOf(nodes) == old(LinksOf(nodes));
      }
    }

    /** Freezes the active table and starts a new one; no write is lost or reordered, and no list changes. */
    method SwitchToNewMemTable() returns (retired: MemTable)
      requires Valid()
      modifies this, active`immutable
      ensures Valid() && retired == old(active) && fresh(active) && immutables == old(immutables) + [retired]
      ensures History() == old(History())
      ensures frozen == old(frozen) + [old(Snap(active.list))]
    {
      retired := active;
      var next := StartNext();
      Retire(next);
    }

    /** Closes the active table to writes and makes a new one that shares nothing with any table. */
    method StartNext() returns (next: MemTable)
      requires AllFrozen() && active.Valid()
      modifies active`immutable
      ensures AllFrozen() && active.Valid() && active.immutable && Snap(active.list) == old(Snap(active.list))
      ensures fresh(next) && next.Valid() && !next.immutable && next.Writes() == [] && Apart(active, next)
      ensures forall i :: 0 <= i < |immutables| ==> Apart(immutables[i], next)
    {
      active.SetImmutable();
      next := new MemTable();
      forall i | 0 <= i < |immutables| ensures FrozenAt(i) && Apart(immutables[i], next) {
        assert old(FrozenAt(i));
        var nodes := immutables[i].list.chain;
        forall k | 0 <= k < |nodes| ensures nodes[k].next == old(nodes[k].next) {
          assert nodes[k] in nodes;
        }
        assert LinksOf(nodes) == old(LinksOf(nodes));
      }
    }

    /** The frozen table joins the others as it is, and `next` takes its place. */
    method Retire(next: MemTable)
      requires AllGood() && AllFrozen() && active.Valid() && active.immutable && Apart(active, next)
      requires forall i :: 0 <= i < |immutables| ==> Apart(immutables[i], next)
      modifies this
      ensures AllGood() && AllFrozen() && active == next
      ensures immutables == old(immutables) + [old(active)] && frozen == old(frozen) + [old(Snap(active.list))]
      ensures past == old(past) + old(active.Writes())
    {
      var retired := active;
      ConcatSnoc(Segments(frozen), retired.Writes());
      assert Segments(frozen + [Snap(retired.list)]) == Segments(frozen) + [retired.Writes()];
      past := past + retired.Writes();
      frozen, immutables, active := frozen + [Snap(retired.list)], immutables + [retired], next;
      forall i | 0 <= i < |immutables| ensures FrozenAt(i) && GoodAt(i) {
        assert i < |old(immutables)| ==> old(FrozenAt(i)) && old(GoodAt(i));
      }
    }

    /** The active table first, then the frozen ones newest first: the answer is the last write. */
    method Get(key: Bytes) returns (value: Option<Bytes>, found: bool)
      requires Valid() && Increasing(History())
      ensures (value, found) == Answer(LastWrite(History(), key))
      ensures match LastWrite(History(), key)
        case None => value == None && !found
        case Some(e) => value == (if e.deletion then None else Some(e.value)) && found
    {
      ghost var target, segments := LastWrite(History(), key), Segments(frozen);
      LastWriteConcat(Concat(segments), active.Writes(), key);
      IncreasingParts(Concat(segments), active.Writes());
      value, found := active.Get(key);
      if found {
        return;
      }
      var i := |immutables|;
      assert segments[..i] == segments;
      while i > 0
        invariant i <= |immutables|
        invariant Increasing(Concat(segments[..i])) && target == LastWrite(Concat(segments[..i]), key)
      {
        i := i - 1;
        SegmentStep(segments, i, key);
        assert FrozenAt(i) && GoodAt(i);
        value, found := immutables[i].Get(key);
        if found {
          return;
        }
      }
      return None, false;
    }
  }
}
