/**
  The replica side of replication: the entry codec and the batch applier, and the convergence of
  the replica's store to the primary's log however batches are lost, repeated, reordered or cut
  short by a failing entry.
*/
module Replication {
  import opened Options
  import opened Bytes
  import opened WalFormat
  import opened WalRoundTrip

  // --- codec ----------------------------------------------------------------------------------------

  const MAX_KEY := 0x10_0000      // 1 MiB
  const MAX_VALUE := 0xA0_0000    // 10 MiB

  /** DeserializeWALEntry: the WAL's own payload layout, with caps on the lengths. */
  function Deserialize(payload: Bytes): Option<Entry> {
    if |payload| < ENTRY_HEADER_SIZE then None
    else if payload[0] < PUT || payload[0] > BATCH then None
    else
      var keyLength := FromLittleEndian(payload[9..13]);
      if keyLength > MAX_KEY || ENTRY_HEADER_SIZE + keyLength > |payload| then None
      else
        var tail := payload[ENTRY_HEADER_SIZE + keyLength..];
        if payload[0] != DELETE && (|tail| < 4 || FromLittleEndian(tail[..4]) > MAX_VALUE) then None
        else match ParseEntry(payload)
          case Parsed(e) => Some(e)
          case _ => None
  }

  /** Lengths that the decoder accepts. */
  predicate UnderCaps(e: Entry) {
    |e.key| <= MAX_KEY && (e.value.Some? ==> |e.value.value| <= MAX_VALUE)
  }

  /** SerializeWALEntry writes the WAL payload; it is read back exactly when the lengths are under the caps. */
  lemma CodecRoundTrip(e: Entry)
    requires ValidEntry(e)
    ensures Deserialize(Payload(e)) == Some(e) <==> UnderCaps(e)
    ensures Deserialize(Payload(e)) in {Some(e), None}
  {
    PayloadParses(e);
    DeserializesExactly(Payload(e), e);
    if Deserialize(Payload(e)).Some? {
      DeserializesExactly(Payload(e), Deserialize(Payload(e)).value);
      ParsesExactly(Payload(e), Deserialize(Payload(e)).value);
    }
  }

  /** Nothing else is read: bytes give an entry exactly when they start with its payload and it is under the caps. */
  lemma DeserializesExactly(payload: Bytes, e: Entry)
    ensures Deserialize(payload) == Some(e) <==> ValidEntry(e) && UnderCaps(e) && Payload(e) <= payload
  {
    ParsesExactly(payload, e);
    if ParseEntry(payload) == Parsed(e) {
      ParsedFields(payload, e);
    }
  }

  // --- the applier ------------------------------------------------------------------------------------

  datatype Delivered = Delivered(sequence: nat, payload: Bytes)

  /** What applyFn does with one entry: it may fail before or after its effect reached the store. */
  datatype Outcome = Applies | FailsBefore | FailsAfter

  datatype ApplyResult = Success | BatchGap | EntryGap(at: nat) | CannotDecode(at: nat) | CannotApply(at: nat)

  function Increment(sequence: nat): nat {
    if sequence + 1 < TWO_64 then sequence + 1 else 0
  }

  type Decoder = Bytes -> Option<Entry>

  /** The loop of ApplyEntries from index `i`: the store, how many entries reached it, and how it ended. */
  function ApplyFrom(decode: Decoder, contents: Contents, entries: seq<Delivered>, i: nat,
      outcome: nat -> Outcome): (r: (Contents, nat, ApplyResult))
    requires i <= |entries|
    ensures i <= r.1 <= |entries|
    decreases |entries| - i
  {
    if i == |entries| then (contents, i, Success)
    else if i > 0 && entries[i].sequence != Increment(entries[i - 1].sequence) then (contents, i, EntryGap(i))
    else match decode(entries[i].payload)
      case None => (contents, i, CannotDecode(i))
      case Some(e) =>
        match outcome(i)
        case FailsBefore => (contents, i, CannotApply(i))
        case FailsAfter => (Effect(contents, e), i + 1, CannotApply(i))
        case Applies => ApplyFrom(decode, Effect(contents, e), entries, i + 1, outcome)
  }

  function Max(a: nat, b: nat): nat { if a < b then b else a }

  /** One call of ApplyEntries: the batch that arrived and how applying its entries goes. */
  datatype Delivery = Delivery(entries: seq<Delivered>, outcome: nat -> Outcome)

  /** `touched` is the highest operation whose effect ever reached the store. */
  datatype Replica = Replica(applied: nat, contents: Contents, touched: nat)

  /** One delivered batch, with the entry codec as a parameter. */
  function Deliver(decode: Decoder, r: Replica, d: Delivery): Replica {
    if d.entries == [] || d.entries[0].sequence != Increment(r.applied) then r
    else
      var (contents, reached, result) := ApplyFrom(decode, r.contents, d.entries, 0, d.outcome);
      Replica(if result == Success then d.entries[|d.entries| - 1].sequence else r.applied,
              contents, Max(r.touched, r.applied + reached))
  }

  class Store {
    var contents: Contents

    constructor (contents: Contents)
      ensures this.contents == contents
    {
      this.contents := contents;
    }
  }

  class BatchApplier {
    var maxAppliedSeq: nat
    var lastAckSeq: nat
    var expectedNextSeq: nat

    ghost predicate Valid()
      reads this
    {
      maxAppliedSeq < TWO_64 && expectedNextSeq == Increment(maxAppliedSeq)
    }

    constructor (startSeq: nat)
      requires startSeq < TWO_64
      ensures Valid() && maxAppliedSeq == lastAckSeq == startSeq
    {
      maxAppliedSeq, lastAckSeq := startSeq, startSeq;
      expectedNextSeq := if startSeq > 0 then Increment(startSeq) else 1;
    }

    method ApplyEntries(entries: seq<Delivered>, store: Store, outcome: nat -> Outcome)
      returns (highest: nat, hasGap: bool, result: ApplyResult)
      requires Valid() && forall i :: 0 <= i < |entries| ==> entries[i].sequence < TWO_64
      modifies this, store
      ensures Valid() && lastAckSeq == old(lastAckSeq) && highest == maxAppliedSeq
      ensures hasGap <==> result.BatchGap? || result.EntryGap?
      ensures entries != [] && entries[0].sequence == old(expectedNextSeq) ==>
        var (contents, _, end) := ApplyFrom(Deserialize, old(store.contents), entries, 0, outcome);
        store.contents == contents && result == end
      ensures entries != [] && entries[0].sequence != old(expectedNextSeq) ==>
        result == BatchGap && store.contents == old(store.contents)
      ensures entries == [] ==> result == Success && store.contents == old(store.contents)
      ensures var r := Deliver(Deserialize, Replica(old(maxAppliedSeq), old(store.contents), 0),
        Delivery(entries, outcome));
        maxAppliedSeq == r.applied && store.contents == r.contents
      ensures maxAppliedSeq == (if result == Success && entries != [] then entries[|entries| - 1].sequence
        else old(maxAppliedSeq))
    {
      if entries == [] {
        return maxAppliedSeq, false, Success;
      }
      if entries[0].sequence != expectedNextSeq {
        return maxAppliedSeq, true, BatchGap;
      }
      var last := 0;
      for i := 0 to |entries|
        invariant ApplyFrom(Deserialize, store.contents, entries, i, outcome)
          == ApplyFrom(Deserialize, old(store.contents), entries, 0, outcome)
        invariant unchanged(this)
        invariant i > 0 ==> last == entries[i - 1].sequence
      {
        if i > 0 && entries[i].sequence != Increment(entries[i - 1].sequence) {
          return maxAppliedSeq, true, EntryGap(i);
        }
        var decoded := Deserialize(entries[i].payload);
        if decoded.None? {
          return maxAppliedSeq, false, CannotDecode(i);
        }
        match outcome(i) {
          case FailsBefore => return maxAppliedSeq, false, CannotApply(i);
          case FailsAfter =>
            store.contents := Effect(store.contents, decoded.value);
            return maxAppliedSeq, false, CannotApply(i);
          case Applies =>
            store.contents := Effect(store.contents, decoded.value);
        }
        last := entries[i].sequence;
      }
      maxAppliedSeq := last;
      expectedNextSeq := Increment(last);
      return maxAppliedSeq, false, Success;
    }

    method AcknowledgeUpTo(sequence: nat)
      modifies this`lastAckSeq
      ensures lastAckSeq == (if sequence > old(lastAckSeq) then sequence else old(lastAckSeq))
    {
      if sequence > lastAckSeq {
        lastAckSeq := sequence;
      }
    }

    method Reset(sequence: nat)
      requires sequence < TWO_64
      modifies this
      ensures Valid() && maxAppliedSeq == lastAckSeq == sequence
    {
      maxAppliedSeq, lastAckSeq := sequence, sequence;
      expectedNextSeq := if sequence == 0 then 1 else Increment(sequence);
    }
  }

  // --- convergence --------------------------------------------------------------------------------------

  /** The store after the primary's first `n` operations. */
  function Prefix(log: seq<Entry>, n: nat): Contents
    requires n <= |log|
  {
    if n == 0 then map[] else Effect(Prefix(log, n - 1), log[n - 1])
  }

  function Lookup(contents: Contents, key: Bytes): Option<Bytes> {
    if key in contents then Some(contents[key]) else None
  }

  /** What an entry does to each key: nothing to any other one, and to its own what its type says. */
  lemma EffectAnswers(contents: Contents, e: Entry, key: Bytes)
    ensures Lookup(Effect(contents, e), key)
         == if e.opType == BATCH || key != e.key then Lookup(contents, key)
            else if e.opType == DELETE then None
            else if e.value.Some? then e.value else Some([])
  {
  }

  predicate WritesKey(e: Entry, key: Bytes) { e.opType != BATCH && e.key == key }

  /** Some operation numbered in (low, high] writes the key. */
  ghost predicate WrittenIn(log: seq<Entry>, low: nat, high: nat, key: Bytes)
    requires low <= |log| && high <= |log|
  {
    exists n :: low <= n < high && WritesKey(log[n], key)
  }

  /**
    The store agrees with the primary's first `applied` operations on every key that no
    operation in (applied, touched] writes: those are the ones a failed batch left behind.
  */
  ghost predicate Agrees(log: seq<Entry>, contents: Contents, applied: nat, touched: nat)
    requires applied <= |log| && touched <= |log|
  {
    forall key :: !WrittenIn(log, applied, touched, key) ==> Lookup(contents, key) == Lookup(Prefix(log, applied), key)
  }

  lemma NothingOutstanding(log: seq<Entry>, contents: Contents, applied: nat, touched: nat)
    requires touched <= applied <= |log| && Agrees(log, contents, applied, touched)
    ensures contents == Prefix(log, applied)
  {
    var want := Prefix(log, applied);
    forall key ensures Lookup(contents, key) == Lookup(want, key) {
      assert !WrittenIn(log, applied, touched, key);
    }
    assert forall key :: key in contents <==> Lookup(contents, key).Some?;
    assert forall key :: key in want <==> Lookup(want, key).Some?;
    forall key | key in contents ensures key in want && contents[key] == want[key] {
      assert Lookup(contents, key) == Lookup(want, key);
    }
    forall key | key in want ensures key in contents {
      assert Lookup(contents, key) == Lookup(want, key);
    }
  }

  /** Every delivered entry is numbered within the log and, if it decodes, carries the operation of that number. */
  ghost predicate Faithful(decode: Decoder, log: seq<Entry>, entries: seq<Delivered>) {
    |log| < TWO_64 &&
    forall i :: 0 <= i < |entries| ==>
      && 1 <= entries[i].sequence <= |log|
      && (decode(entries[i].payload).Some? ==> decode(entries[i].payload).value == log[entries[i].sequence - 1])
  }

  /** Applying the next operation moves the agreement up by one. */
  lemma AgreesStep(log: seq<Entry>, contents: Contents, n: nat, touched: nat)
    requires n < touched <= |log| && Agrees(log, contents, n, touched)
    ensures Agrees(log, Effect(contents, log[n]), n + 1, touched)
  {
    forall key | !WrittenIn(log, n + 1, touched, key)
      ensures Lookup(Effect(contents, log[n]), key) == Lookup(Prefix(log, n + 1), key)
    {
      if !WritesKey(log[n], key) {
        assert !WrittenIn(log, n, touched, key);
      }
    }
  }

  lemma AgreesWeaken(log: seq<Entry>, contents: Contents, n: nat, touched: nat, more: nat)
    requires n <= |log| && touched <= more <= |log| && Agrees(log, contents, n, touched)
    ensures Agrees(log, contents, n, more)
  {
    forall key | !WrittenIn(log, n, more, key) ensures !WrittenIn(log, n, touched, key) {
      assert forall x :: n <= x < touched ==> n <= x < more && !WritesKey(log[x], key);
    }
  }

  /** Falling back to an earlier count only adds outstanding operations. */
  lemma {:induction false} AgreesFallsBack(log: seq<Entry>, contents: Contents, applied: nat, n: nat, touched: nat)
    requires applied <= n <= |log| && n <= touched <= |log| && Agrees(log, contents, n, touched)
    ensures Agrees(log, contents, applied, touched)
    decreases n
  {
    if applied < n {
      forall key | !WrittenIn(log, n - 1, touched, key)
        ensures Lookup(contents, key) == Lookup(Prefix(log, n - 1), key)
      {
        assert !WritesKey(log[n - 1], key);
        assert !WrittenIn(log, n, touched, key);
      }
      AgreesFallsBack(log, contents, applied, n - 1, touched);
    }
  }

  /** The entries that reach the store are numbered consecutively from the first one. */
  lemma {:induction false} LoopIsConsecutive(decode: Decoder, log: seq<Entry>, contents: Contents,
      entries: seq<Delivered>, i: nat, outcome: nat -> Outcome, applied: nat)
    requires Faithful(decode, log, entries) && i <= |entries|
    requires entries != [] && entries[0].sequence == applied + 1
    requires forall j :: 0 <= j < i ==> entries[j].sequence == applied + 1 + j
    ensures forall j :: 0 <= j < ApplyFrom(decode, contents, entries, i, outcome).1 ==>
      entries[j].sequence == applied + 1 + j
    ensures ApplyFrom(decode, contents, entries, i, outcome).2 == Success ==>
      ApplyFrom(decode, contents, entries, i, outcome).1 == |entries|
    decreases |entries| - i
  {
    if i < |entries| && (i > 0 ==> entries[i].sequence == Increment(entries[i - 1].sequence)) {
      assert i > 0 ==> entries[i - 1].sequence == applied + i;
      var decoded := decode(entries[i].payload);
      if decoded.Some? && outcome(i) == Applies {
        LoopIsConsecutive(decode, log, Effect(contents, decoded.value), entries, i + 1, outcome, applied);
      }
    }
  }

  /** From index `i`, with everything before it applied, the loop keeps the store in agreement. */
  lemma {:induction false} LoopAgrees(decode: Decoder, log: seq<Entry>, contents: Contents, entries: seq<Delivered>,
      i: nat, outcome: nat -> Outcome, applied: nat, touched: nat, end: nat)
    requires Faithful(decode, log, entries) && i <= |entries|
    requires end == ApplyFrom(decode, contents, entries, i, outcome).1
    requires forall j :: 0 <= j < end ==> entries[j].sequence == applied + 1 + j
    requires applied + end <= touched <= |log|
    requires Agrees(log, contents, applied + i, touched)
    ensures Agrees(log, ApplyFrom(decode, contents, entries, i, outcome).0, applied + end, touched)
    decreases |entries| - i
  {
    if i < end {
      var e := decode(entries[i].payload).value;
      assert e == log[applied + i];
      AgreesStep(log, contents, applied + i, touched);
      if outcome(i) == Applies {
        LoopAgrees(decode, log, Effect(contents, e), entries, i + 1, outcome, applied, touched, end);
      }
    }
  }

  // --- progress -------------------------------------------------------------------------------------------

  /** Entry `j` follows the one before it. */
  predicate InSequence(entries: seq<Delivered>, j: int)
    requires 0 <= j < |entries|
  {
    j > 0 ==> entries[j].sequence == Increment(entries[j - 1].sequence)
  }

  /** Entry `j` follows the one before it, decodes, and is applied. */
  predicate GoesThrough(decode: Decoder, entries: seq<Delivered>, outcome: nat -> Outcome, j: int)
    requires 0 <= j < |entries|
  {
    InSequence(entries, j) && decode(entries[j].payload).Some? && outcome(j) == Applies
  }

  ghost predicate AllGoThrough(decode: Decoder, entries: seq<Delivered>, outcome: nat -> Outcome, low: nat, high: nat) {
    high <= |entries| && forall j :: low <= j < high ==> GoesThrough(decode, entries, outcome, j)
  }

  /** The store after entries `low` to `high`, one after the other. */
  function EffectOf(decode: Decoder, contents: Contents, entries: seq<Delivered>, low: nat, high: nat): Contents
    requires low <= high <= |entries|
    decreases high
  {
    if low == high then contents
    else
      var before := EffectOf(decode, contents, entries, low, high - 1);
      match decode(entries[high - 1].payload)
      case None => before
      case Some(e) => Effect(before, e)
  }

  lemma {:induction false} EffectOfCons(decode: Decoder, contents: Contents, entries: seq<Delivered>, low: nat,
      high: nat)
    requires low < high <= |entries| && decode(entries[low].payload).Some?
    ensures EffectOf(decode, Effect(contents, decode(entries[low].payload).value), entries, low + 1, high)
         == EffectOf(decode, contents, entries, low, high)
    decreases high
  {
    if low + 1 < high {
      EffectOfCons(decode, contents, entries, low, high - 1);
    } else {
      assert EffectOf(decode, contents, entries, low, low) == contents;
    }
  }

  /** The loop passes over entries that go through, with their effects. */
  lemma {:induction false} LoopPasses(decode: Decoder, contents: Contents, entries: seq<Delivered>, i: nat, k: nat,
      outcome: nat -> Outcome)
    requires i <= k && AllGoThrough(decode, entries, outcome, i, k)
    ensures ApplyFrom(decode, contents, entries, i, outcome)
         == ApplyFrom(decode, EffectOf(decode, contents, entries, i, k), entries, k, outcome)
    decreases k - i
  {
    if i < k {
      assert GoesThrough(decode, entries, outcome, i);
      LoopPasses(decode, Effect(contents, decode(entries[i].payload).value), entries, i + 1, k, outcome);
      EffectOfCons(decode, contents, entries, i, k);
    }
  }

  /** The first entry that does not go through; the number of entries when all do. */
  function Stop(decode: Decoder, entries: seq<Delivered>, i: nat, outcome: nat -> Outcome): (k: nat)
    requires i <= |entries|
    ensures i <= k <= |entries| && AllGoThrough(decode, entries, outcome, i, k)
    ensures k < |entries| ==> !GoesThrough(decode, entries, outcome, k)
    decreases |entries| - i
  {
    if i == |entries| || !GoesThrough(decode, entries, outcome, i) then i else Stop(decode, entries, i + 1, outcome)
  }

  /**
    How a batch ends, exactly: success when every entry goes through; otherwise the first one that does not is
    reported, as a gap if its number does not follow, as undecodable if it follows, or as failed. The store
    has the effects of all entries before it, and of the failed one itself if the failure came after.
  */
  lemma BatchEnds(decode: Decoder, contents: Contents, entries: seq<Delivered>, outcome: nat -> Outcome, k: nat)
    requires AllGoThrough(decode, entries, outcome, 0, k)
    requires k < |entries| ==> !GoesThrough(decode, entries, outcome, k)
    ensures var (after, reached, result) := ApplyFrom(decode, contents, entries, 0, outcome);
      var before := EffectOf(decode, contents, entries, 0, k);
      if k == |entries| then result == Success && reached == k && after == before
      else if !InSequence(entries, k) then result == EntryGap(k) && reached == k && after == before
      else match decode(entries[k].payload)
        case None => result == CannotDecode(k) && reached == k && after == before
        case Some(e) =>
          result == CannotApply(k) &&
          if outcome(k) == FailsAfter then reached == k + 1 && after == Effect(before, e)
          else reached == k && after == before
  {
    LoopPasses(decode, contents, entries, 0, k, outcome);
  }

  /** A gap inside a batch is reported if and only if it is the first thing that goes wrong. */
  lemma GapExactly(decode: Decoder, contents: Contents, entries: seq<Delivered>, outcome: nat -> Outcome, k: nat)
    ensures ApplyFrom(decode, contents, entries, 0, outcome).2 == EntryGap(k) <==>
      k < |entries| && !InSequence(entries, k) && AllGoThrough(decode, entries, outcome, 0, k)
  {
    var stop := Stop(decode, entries, 0, outcome);
    BatchEnds(decode, contents, entries, outcome, stop);
    if k < |entries| && !InSequence(entries, k) && AllGoThrough(decode, entries, outcome, 0, k) {
      BatchEnds(decode, contents, entries, outcome, k);
    }
  }

  /** A batch that continues where the replica stands, decodes, and is applied without a failure. */
  ghost predicate Continues(decode: Decoder, r: Replica, d: Delivery) {
    && d.entries != [] && r.applied + |d.entries| < TWO_64
    && (forall j :: 0 <= j < |d.entries| ==> d.entries[j].sequence == r.applied + 1 + j)
    && (forall j :: 0 <= j < |d.entries| ==> decode(d.entries[j].payload).Some? && d.outcome(j) == Applies)
  }

  /** Such a batch is applied as a whole: the replica moves on by its length and reports success. */
  lemma BatchAdvances(decode: Decoder, r: Replica, d: Delivery)
    requires Continues(decode, r, d)
    ensures ApplyFrom(decode, r.contents, d.entries, 0, d.outcome).2 == Success
    ensures Deliver(decode, r, d).applied == r.applied + |d.entries|
    ensures Deliver(decode, r, d).contents == EffectOf(decode, r.contents, d.entries, 0, |d.entries|)
  {
    forall j | 0 <= j < |d.entries| ensures GoesThrough(decode, d.entries, d.outcome, j) {
      assert j > 0 ==> d.entries[j - 1].sequence == r.applied + j;
    }
    BatchEnds(decode, r.contents, d.entries, d.outcome, |d.entries|);
  }

  // --- whole runs -----------------------------------------------------------------------------------------

  /** What can happen to a replica: a batch arrives, or it is told to start again from a number. */
  datatype Event = Receive(delivery: Delivery) | Restart(sequence: nat)

  function Handle(decode: Decoder, r: Replica, e: Event): Replica {
    match e
    case Receive(d) => Deliver(decode, r, d)
    case Restart(n) => Replica(n, r.contents, Max(r.touched, r.applied))
  }

  function HandleAll(decode: Decoder, r: Replica, run: seq<Event>): Replica
    decreases |run|
  {
    if run == [] then r else HandleAll(decode, Handle(decode, r, run[0]), run[1..])
  }

  /** Batches carry the primary's operations, and a restart does not go beyond what was applied. */
  ghost predicate Admissible(decode: Decoder, log: seq<Entry>, r: Replica, e: Event) {
    match e
    case Receive(d) => Faithful(decode, log, d.entries)
    case Restart(n) => n <= r.applied
  }

  ghost predicate AllAdmissible(decode: Decoder, log: seq<Entry>, r: Replica, run: seq<Event>)
    decreases |run|
  {
    run == [] || (Admissible(decode, log, r, run[0]) && AllAdmissible(decode, log, Handle(decode, r, run[0]), run[1..]))
  }

  ghost predicate Converging(log: seq<Entry>, r: Replica) {
    r.applied <= |log| && r.touched <= |log| && Agrees(log, r.contents, r.applied, r.touched)
  }

  /** The applier's loop, wherever it ends, leaves a converging replica. */
  lemma AppliedConverges(decode: Decoder, log: seq<Entry>, r: Replica, d: Delivery, reached: nat)
    requires Converging(log, r) && Faithful(decode, log, d.entries)
    requires d.entries != [] && d.entries[0].sequence == r.applied + 1
    requires reached == ApplyFrom(decode, r.contents, d.entries, 0, d.outcome).1
    ensures var (contents, _, result) := ApplyFrom(decode, r.contents, d.entries, 0, d.outcome);
      && r.applied + reached <= |log|
      && Agrees(log, contents, r.applied + reached, Max(r.touched, r.applied + reached))
      && (result == Success ==> d.entries[|d.entries| - 1].sequence == r.applied + reached)
  {
    var touched := Max(r.touched, r.applied + reached);
    LoopIsConsecutive(decode, log, r.contents, d.entries, 0, d.outcome, r.applied);
    assert reached > 0 ==> d.entries[reached - 1].sequence == r.applied + reached;
    AgreesWeaken(log, r.contents, r.applied, r.touched, touched);
    LoopAgrees(decode, log, r.contents, d.entries, 0, d.outcome, r.applied, touched, reached);
  }

  lemma DeliverConverges(decode: Decoder, log: seq<Entry>, r: Replica, d: Delivery)
    requires Converging(log, r) && Faithful(decode, log, d.entries)
    ensures Converging(log, Deliver(decode, r, d))
    ensures r.applied <= Deliver(decode, r, d).applied && r.touched <= Deliver(decode, r, d).touched
  {
    if d.entries != [] && d.entries[0].sequence == Increment(r.applied) {
      var (contents, reached, result) := ApplyFrom(decode, r.contents, d.entries, 0, d.outcome);
      AppliedConverges(decode, log, r, d, reached);
      if result != Success {
        AgreesFallsBack(log, contents, r.applied, r.applied + reached, Max(r.touched, r.applied + reached));
      }
    }
  }

  lemma RestartConverges(log: seq<Entry>, r: Replica, n: nat)
    requires Converging(log, r) && n <= r.applied
    ensures Converging(log, Replica(n, r.contents, Max(r.touched, r.applied)))
  {
    var touched := Max(r.touched, r.applied);
    AgreesWeaken(log, r.contents, r.applied, r.touched, touched);
    AgreesFallsBack(log, r.contents, n, r.applied, touched);
  }

  lemma HandleConverges(decode: Decoder, log: seq<Entry>, r: Replica, e: Event)
    requires Converging(log, r) && Admissible(decode, log, r, e)
    ensures Converging(log, Handle(decode, r, e))
  {
    match e
    case Receive(d) => DeliverConverges(decode, log, r, d);
    case Restart(n) => RestartConverges(log, r, n);
  }

  /**
    Replica convergence: after any run of batches, each lost, repeated, reordered or failing half way, and
    of restarts, the store agrees with the primary's prefix up to the applied number on every key not
    written by an outstanding operation, and equals that prefix when none is outstanding.
  */
  lemma {:induction false} RunConverges(decode: Decoder, log: seq<Entry>, r: Replica, run: seq<Event>)
    requires Converging(log, r) && AllAdmissible(decode, log, r, run)
    ensures var end := HandleAll(decode, r, run);
      Converging(log, end) && (end.touched <= end.applied ==> end.contents == Prefix(log, end.applied))
    decreases |run|
  {
    if run == [] {
      if r.touched <= r.applied {
        NothingOutstanding(log, r.contents, r.applied, r.touched);
      }
    } else {
      HandleConverges(decode, log, r, run[0]);
      RunConverges(decode, log, Handle(decode, r, run[0]), run[1..]);
    }
  }

  /** Each entry carries what the primary's serializer writes for the operation with its number. */
  ghost predicate Carries(log: seq<Entry>, entries: seq<Delivered>) {
    forall i :: 0 <= i < |entries| ==>
      1 <= entries[i].sequence <= |log| && entries[i].payload == Payload(log[entries[i].sequence - 1])
  }

  lemma PayloadsAreFaithful(log: seq<Entry>, entries: seq<Delivered>)
    requires |log| < TWO_64 && ValidEntries(log) && Carries(log, entries)
    ensures Faithful(Deserialize, log, entries)
  {
    forall i | 0 <= i < |entries|
      ensures Deserialize(entries[i].payload) in {Some(log[entries[i].sequence - 1]), None}
    {
      CodecRoundTrip(log[entries[i].sequence - 1]);
    }
  }

  /** Every batch carries serialized operations of the primary, and no restart goes beyond what was applied. */
  ghost predicate Sent(log: seq<Entry>, r: Replica, run: seq<Event>)
    decreases |run|
  {
    run == [] || (Sent(log, Handle(Deserialize, r, run[0]), run[1..]) &&
      match run[0]
      case Receive(d) => Carries(log, d.entries)
      case Restart(n) => n <= r.applied)
  }

  lemma {:induction false} SentIsAdmissible(log: seq<Entry>, r: Replica, run: seq<Event>)
    requires |log| < TWO_64 && ValidEntries(log) && Sent(log, r, run)
    ensures AllAdmissible(Deserialize, log, r, run)
    decreases |run|
  {
    if run != [] {
      if run[0].Receive? {
        PayloadsAreFaithful(log, run[0].delivery.entries);
      }
      SentIsAdmissible(log, Handle(Deserialize, r, run[0]), run[1..]);
    }
  }

  /**
    With the real serializer: a replica that starts from the primary's first operations holds, after any run,
    exactly the operations it counts as applied whenever none beyond them is outstanding.
  */
  lemma ReplicaConverges(log: seq<Entry>, n: nat, run: seq<Event>)
    requires |log| < TWO_64 && ValidEntries(log) && n <= |log| && Sent(log, Replica(n, Prefix(log, n), n), run)
    ensures var end := HandleAll(Deserialize, Replica(n, Prefix(log, n), n), run);
      Converging(log, end) && (end.touched <= end.applied ==> end.contents == Prefix(log, end.applied))
  {
    SentIsAdmissible(log, Replica(n, Prefix(log, n), n), run);
    RunConverges(Deserialize, log, Replica(n, Prefix(log, n), n), run);
  }

  /**
    Progress: a batch that continues where a converging replica stands leaves it with exactly the primary's
    prefix up to the batch's end, provided nothing beyond that end is outstanding.
  */
  lemma ReplicaAdvances(decode: Decoder, log: seq<Entry>, r: Replica, d: Delivery)
    requires Converging(log, r) && Faithful(decode, log, d.entries) && Continues(decode, r, d)
    requires r.touched <= r.applied + |d.entries|
    ensures var r' := Deliver(decode, r, d);
      && r'.applied == r.applied + |d.entries| <= |log| && r'.touched == r'.applied
      && r'.contents == Prefix(log, r'.applied)
  {
    var n := |d.entries|;
    BatchAdvances(decode, r, d);
    assert d.entries[n - 1].sequence == r.applied + n;
    DeliverConverges(decode, log, r, d);
    var r' := Deliver(decode, r, d);
    assert r'.touched == r'.applied by { BatchReaches(decode, r, d); }
    NothingOutstanding(log, r'.contents, r'.applied, r'.touched);
  }

  lemma BatchReaches(decode: Decoder, r: Replica, d: Delivery)
    requires Continues(decode, r, d)
    ensures Deliver(decode, r, d).touched == Max(r.touched, r.applied + |d.entries|)
  {
    forall j | 0 <= j < |d.entries| ensures GoesThrough(decode, d.entries, d.outcome, j) {
      assert j > 0 ==> d.entries[j - 1].sequence == r.applied + j;
    }
    BatchEnds(decode, r.contents, d.entries, d.outcome, |d.entries|);
  }

  /** The rest of the primary's log, serialized. */
  function Remaining(log: seq<Entry>, applied: nat): seq<Delivered>
    requires applied <= |log|
  {
    seq(|log| - applied, j requires 0 <= j < |log| - applied => Delivered(applied + 1 + j, Payload(log[applied + j])))
  }

  /**
    From every converging replica, whatever earlier batches did to it, one batch with the rest of the log
    brings it to exactly the primary's store.
  */
  lemma {:induction false} ReplicaCatchesUp(log: seq<Entry>, r: Replica, outcome: nat -> Outcome)
    requires |log| < TWO_64 && ValidEntries(log) && Converging(log, r) && r.applied < |log|
    requires forall i :: 0 <= i < |log| ==> UnderCaps(log[i])
    requires forall j :: outcome(j) == Applies
    ensures var r' := Deliver(Deserialize, r, Delivery(Remaining(log, r.applied), outcome));
      r'.applied == |log| && r'.contents == Prefix(log, |log|)
  {
    var decode := Deserialize;
    forall i | 0 <= i < |log| ensures decode(Payload(log[i])).Some? {
      CodecRoundTrip(log[i]);
    }
    RemainingContinues(decode, log, r, outcome);
    PayloadsAreFaithful(log, Remaining(log, r.applied));
    ReplicaAdvances(decode, log, r, Delivery(Remaining(log, r.applied), outcome));
  }

  lemma {:induction false} RemainingContinues(decode: Decoder, log: seq<Entry>, r: Replica, outcome: nat -> Outcome)
    requires |log| < TWO_64 && r.applied < |log| && forall j :: outcome(j) == Applies
    requires forall i :: 0 <= i < |log| ==> decode(Payload(log[i])).Some?
    ensures Carries(log, Remaining(log, r.applied))
    ensures Continues(decode, r, Delivery(Remaining(log, r.applied), outcome))
  {
  }
}
