/**
  Transactions on top of the lock manager, as an interleaved step system.

  Each transaction carries the point its own call has reached (`phase`); a step moves one
  transaction past one critical section (the lock manager's mutex, the isolation lock, the
  storage mutex) or past one access to its `active` flag. Its own calls are sequential, but
  Rollback may arrive from another goroutine at any time: its first part takes the lock
  manager's mutex only, and the callback it runs there does not take the transaction's.
*/
module Transactions {
  import opened Options
  import opened Bytes
  import opened LockTable
  import opened WaitGraph

  type Value = Bytes
  /** Pending writes; None is a deletion. */
  type Writes = map<Key, Option<Value>>

  datatype Mode = UnknownMode | ReadOnly | Serialized | ReadCommitted

  datatype Phase =
    | Beginning                                     // counted and active, isolation lock not yet held
    | Registering                                   // isolation lock held, not yet known to the lock manager
    | Rejected                                      // unknown mode: never handed to a caller
    | Idle                                          // no call of its own in progress
    | Acquiring(key: Key, write: Option<Value>, tried: bool)   // in AcquireLock's retry loop; an attempt has failed
    | Failing                                       // AcquireLock failed, locks not yet released
    | Closing                                       // locks released, rollbackLocked still to run
    | Buffering(key: Key, write: Option<Value>)     // may write to the buffer
    | Deciding                                      // Commit saw the transaction active, has not closed it yet
    | Committing                                    // inactive, batch not yet applied
    | Applied                                       // batch applied, key locks not yet released
    | Unlocking                                     // isolation lock not yet released

  datatype Tx = Tx(
    mode: Mode,
    active: bool,
    buffer: Writes,
    phase: Phase,
    pendingRollbacks: nat,   // Rollback calls that released the key locks and wait for the transaction's mutex
    gaveUp: set<Key>,        // keys not acquired since their lock wait ran out, though AcquireLock reported success
    releases: nat,           // how often the isolation lock hold was given back
    callbacks: nat,          // how often the release callback closed the transaction
    raced: bool,             // closed by a Rollback between Commit's test of `active` and its reset
    exposed: bool)           // key locks released by a Rollback after that reset, before the batch was applied

  datatype System = System(
    table: Table,
    txs: map<TxId, Tx>,
    readers: nat,            // the isolation lock: shared holders, exclusive holder
    writer: bool,
    fatal: bool,             // an unlock of an unlocked isolation lock, which ends the process
    storage: map<Key, Value>,
    started: nat,
    completed: nat,
    aborted: nat,
    lostBegins: nat)         // BeginTransaction calls that failed to draw an id

  const START := System(EMPTY, map[], 0, false, false, map[], 0, 0, 0, 0)

  /** Storage with the pending writes on top. */
  function Overlay(storage: map<Key, Value>, writes: Writes): map<Key, Value> {
    map k | k in storage.Keys + writes.Keys && (k in writes ==> writes[k].Some?) ::
      if k in writes then writes[k].value else storage[k]
  }

  // --- critical sections shared by several steps ------------------------------------------------

  function Set(s: System, t: TxId, x: Tx): System {
    s.(txs := s.txs[t := x])
  }

  /** Give back the shared or exclusive hold, as the mode says. */
  function Unlock(s: System, t: TxId): (r: System)
    requires t in s.txs
    ensures r.txs.Keys == s.txs.Keys
  {
    var x := s.txs[t];
    var s1 := Set(s, t, x.(releases := x.releases + 1));
    if x.mode == Serialized then
      if s.writer then s1.(writer := false) else s1.(fatal := true)
    else
      if s.readers > 0 then s1.(readers := s.readers - 1) else s1.(fatal := true)
  }

  /** ReleaseLocksAndUnregisterTx with the callback registered by BeginTransaction. */
  function ReleaseKeys(s: System, t: TxId): (r: System)
    requires t in s.txs
    ensures r.txs.Keys == s.txs.Keys
  {
    if t !in s.table.registered then s
    else
      var s1 := s.(table := Release(s.table, t));
      var x := s.txs[t];
      if !x.active then s1
      else
        Unlock(Set(s1, t, x.(active := false, buffer := map[], callbacks := x.callbacks + 1)), t)
        .(aborted := s.aborted + 1)
  }

  function RollbackLocked(s: System, t: TxId): (r: System)
    requires t in s.txs
    ensures r.txs.Keys == s.txs.Keys
  {
    var x := s.txs[t];
    if !x.active then s
    else
      var s1 := Set(s, t, x.(active := false, buffer := map[]));
      var s2 := if x.mode == ReadCommitted then ReleaseKeys(s1, t) else s1;
      if x.mode == UnknownMode then s2
      else Unlock(s2, t).(aborted := s2.aborted + 1)
  }

  // --- steps ------------------------------------------------------------------------------------

  datatype Step =
    | Begin(tx: TxId, mode: Mode)
    | BeginFailed(tx: TxId)
    | LockIsolation(tx: TxId)
    | RegisterTx(tx: TxId)
    | Write(tx: TxId, key: Key, write: Option<Value>)
    | AttemptLock(tx: TxId)
    | GiveUp(tx: TxId)
    | ReleaseFailed(tx: TxId)
    | CloseFailed(tx: TxId)
    | BufferWrite(tx: TxId)
    | Commit(tx: TxId)
    | CloseForCommit(tx: TxId)
    | Apply(tx: TxId, ok: bool, applied: bool)
    | ReleaseCommitted(tx: TxId)
    | UnlockIsolation(tx: TxId)
    | RollbackRelease(tx: TxId, kept: bool)   // kept: a racing Commit reads the buffer before it is cleared
    | RollbackFinish(tx: TxId)
    | MarkVictim(tx: TxId, victim: TxId)

  /** BeginTransaction has returned this transaction to a caller. */
  predicate HandedOut(x: Tx) {
    !x.phase.Beginning? && !x.phase.Registering? && !x.phase.Rejected?
  }

  ghost predicate Enabled(s: System, step: Step) {
    !s.fatal &&
    match step
    case Begin(t, _) => t !in s.txs && t != NO_TX
    case BeginFailed(_) => true
    case LockIsolation(t) =>
      t in s.txs && s.txs[t].phase.Beginning? && !s.writer && (s.txs[t].mode == Serialized ==> s.readers == 0)
    case RegisterTx(t) => t in s.txs && s.txs[t].phase.Registering?
    case Write(t, _, _) => t in s.txs && s.txs[t].phase.Idle?
    case AttemptLock(t) => t in s.txs && s.txs[t].phase.Acquiring?
    case GiveUp(t) => t in s.txs && s.txs[t].phase.Acquiring? && s.txs[t].phase.tried
    case ReleaseFailed(t) => t in s.txs && s.txs[t].phase.Failing?
    case CloseFailed(t) => t in s.txs && s.txs[t].phase.Closing?
    case BufferWrite(t) => t in s.txs && s.txs[t].phase.Buffering?
    case Commit(t) => t in s.txs && s.txs[t].phase.Idle?
    case CloseForCommit(t) => t in s.txs && s.txs[t].phase.Deciding?
    case Apply(t, ok, applied) => t in s.txs && s.txs[t].phase.Committing? && (ok ==> applied)
    case ReleaseCommitted(t) => t in s.txs && s.txs[t].phase.Applied?
    case UnlockIsolation(t) => t in s.txs && s.txs[t].phase.Unlocking?
    case RollbackRelease(t, _) => t in s.txs && HandedOut(s.txs[t])
    case RollbackFinish(t) => t in s.txs && s.txs[t].phase.Idle? && s.txs[t].pendingRollbacks > 0
    case MarkVictim(start, v) =>
      Endless(WaitsFor(s.table), start) && Detect(s.table, start, s.table.(victims := s.table.victims + {v}))
  }

  // What each step does, given the phase it starts from.

  function StartTx(s: System, t: TxId, mode: Mode): System {
    var phase := if mode == UnknownMode then Rejected else Beginning;
    Set(s, t, Tx(mode, true, map[], phase, 0, {}, 0, 0, false, false)).(started := s.started + 1)
  }

  function LoseBegin(s: System): System {
    s.(started := s.started + 1, lostBegins := s.lostBegins + 1)
  }

  function TakeIsolation(s: System, t: TxId): System
    requires t in s.txs
  {
    var x := s.txs[t];
    var s1 := Set(s, t, x.(phase := if x.mode == ReadCommitted then Registering else Idle));
    if x.mode == Serialized then s1.(writer := true) else s1.(readers := s.readers + 1)
  }

  function Enroll(s: System, t: TxId): System
    requires t in s.txs
  {
    Set(s, t, s.txs[t].(phase := Idle)).(table := Register(s.table, t))
  }

  function StartWrite(s: System, t: TxId, key: Key, write: Option<Value>): System
    requires t in s.txs
  {
    var x := s.txs[t];
    if !x.active || x.mode == ReadOnly || x.mode == UnknownMode then s
    else Set(s, t, x.(phase := if x.mode == Serialized then Buffering(key, write) else Acquiring(key, write, false)))
  }

  /** A transaction after one attempt to lock the key it is acquiring. */
  function Tried(x: Tx, outcome: Outcome): Tx
    requires x.phase.Acquiring?
  {
    match outcome
    case Acquired => x.(phase := Buffering(x.phase.key, x.phase.write), gaveUp := x.gaveUp - {x.phase.key})
    case MustWait => x.(phase := x.phase.(tried := true))
    case _ => x.(phase := Failing)
  }

  function TryLock(s: System, t: TxId): System
    requires t in s.txs && s.txs[t].phase.Acquiring?
  {
    var x := s.txs[t];
    Set(s.(table := Attempt(s.table, x.phase.key, t)), t, Tried(x, AttemptOutcome(s.table, x.phase.key, t)))
  }

  function AbandonWait(s: System, t: TxId): System
    requires t in s.txs && s.txs[t].phase.Acquiring?
  {
    var x := s.txs[t];
    Set(s, t, x.(phase := Buffering(x.phase.key, x.phase.write), gaveUp := x.gaveUp + {x.phase.key}))
  }

  function StoreWrite(s: System, t: TxId): System
    requires t in s.txs && s.txs[t].phase.Buffering?
  {
    var x := s.txs[t];
    Set(s, t, x.(phase := Idle, buffer := x.buffer[x.phase.key := x.phase.write]))
  }

  function StartCommit(s: System, t: TxId): System
    requires t in s.txs
  {
    if s.txs[t].active then Set(s, t, s.txs[t].(phase := Deciding)) else s
  }

  /** Commit resets `active` without looking at it again. */
  function CloseCommit(s: System, t: TxId): System
    requires t in s.txs
  {
    var x := s.txs[t].(active := false, phase := Idle);
    if x.mode == UnknownMode then Set(s, t, x)
    else if x.mode == ReadOnly then Unlock(Set(s, t, x), t).(completed := s.completed + 1)
    else Set(s, t, x.(phase := Committing))
  }

  function ApplyBuffer(s: System, t: TxId, ok: bool, applied: bool): System
    requires t in s.txs
  {
    var x := s.txs[t];
    var s1 := Set(s, t, x.(phase := if x.mode == ReadCommitted then Applied else Unlocking));
    if x.buffer == map[] then s1.(completed := s.completed + 1)
    else
      var s2 := if applied then s1.(storage := Overlay(s.storage, x.buffer)) else s1;
      if ok then s2.(completed := s.completed + 1) else s2.(aborted := s.aborted + 1)
  }

  /** Releases the key locks and goes on to the given phase. */
  function ReleaseThen(s: System, t: TxId, phase: Phase): System
    requires t in s.txs
  {
    var s1 := ReleaseKeys(s, t);
    Set(s1, t, s1.txs[t].(phase := phase))
  }

  function CloseThenIdle(s: System, t: TxId): System
    requires t in s.txs
  {
    var s1 := RollbackLocked(s, t);
    Set(s1, t, s1.txs[t].(phase := Idle))
  }

  function UnlockThenIdle(s: System, t: TxId): System
    requires t in s.txs
  {
    var s1 := Unlock(s, t);
    Set(s1, t, s1.txs[t].(phase := Idle))
  }

  /** The first part of Rollback, marked when it hits a commit that has not applied its batch. */
  function StartRollback(s: System, t: TxId, kept: bool): System
    requires t in s.txs
  {
    var x, s1, hit := s.txs[t], ReleaseKeys(s, t), t in s.table.registered;
    var y := s1.txs[t].(pendingRollbacks := x.pendingRollbacks + 1);
    Set(s1, t,
      if hit && x.phase.Deciding? then y.(raced := true, buffer := if kept then x.buffer else map[])
      else if hit && x.phase.Committing? then y.(exposed := true)
      else y)
  }

  function EndRollback(s: System, t: TxId): System
    requires t in s.txs && s.txs[t].pendingRollbacks > 0
  {
    var s1 := RollbackLocked(s, t);
    Set(s1, t, s1.txs[t].(pendingRollbacks := s.txs[t].pendingRollbacks - 1))
  }

  function Do(s: System, step: Step): System
    requires Enabled(s, step)
  {
    match step
    case Begin(t, mode) => StartTx(s, t, mode)
    case BeginFailed(_) => LoseBegin(s)
    case LockIsolation(t) => TakeIsolation(s, t)
    case RegisterTx(t) => Enroll(s, t)
    case Write(t, key, write) => StartWrite(s, t, key, write)
    case AttemptLock(t) => TryLock(s, t)
    case GiveUp(t) => AbandonWait(s, t)
    case ReleaseFailed(t) => ReleaseThen(s, t, Closing)
    case CloseFailed(t) => CloseThenIdle(s, t)
    case BufferWrite(t) => StoreWrite(s, t)
    case Commit(t) => StartCommit(s, t)
    case CloseForCommit(t) => CloseCommit(s, t)
    case Apply(t, ok, applied) => ApplyBuffer(s, t, ok, applied)
    case ReleaseCommitted(t) => ReleaseThen(s, t, Unlocking)
    case UnlockIsolation(t) => UnlockThenIdle(s, t)
    case RollbackRelease(t, kept) => StartRollback(s, t, kept)
    case RollbackFinish(t) => EndRollback(s, t)
    case MarkVictim(_, v) => s.(table := s.table.(victims := s.table.victims + {v}))
  }

  ghost predicate StepAt(states: seq<System>, steps: seq<Step>, i: nat)
    requires i < |steps| < |states|
  {
    Enabled(states[i], steps[i]) && states[i + 1] == Do(states[i], steps[i])
  }

  /** A finite interleaving. */
  ghost predicate Path(states: seq<System>, steps: seq<Step>) {
    && |states| == |steps| + 1
    && forall i :: 0 <= i < |steps| ==> StepAt(states, steps, i)
  }

  /** A finite interleaving from the empty system. */
  ghost predicate Run(states: seq<System>, steps: seq<Step>) {
    Path(states, steps) && states[0] == START
  }

  // --- invariant --------------------------------------------------------------------------------

  predicate InCommit(x: Tx) {
    x.phase.Deciding? || x.phase.Committing? || x.phase.Applied? || x.phase.Unlocking?
  }

  /** The transaction holds the isolation lock, or has still to give it back. */
  predicate Holds(x: Tx) {
    !x.phase.Beginning? && !x.phase.Rejected? && (x.active || InCommit(x))
  }

  predicate HoldsShared(x: Tx) { Holds(x) && x.mode != Serialized }

  predicate HoldsExclusive(x: Tx) { Holds(x) && x.mode == Serialized }

  /** Still to be counted as completed or aborted. */
  predicate Uncounted(x: Tx) { x.active || x.phase.Deciding? || x.phase.Committing? }

  predicate Raced(x: Tx) { x.raced }

  function Having(txs: map<TxId, Tx>, p: Tx -> bool): set<TxId> {
    set t | t in txs && p(txs[t])
  }

  predicate Owns(table: Table, t: TxId, key: Key) {
    key in table.owner && table.owner[key] == t
  }

  /** Phases in which only a read-committed transaction can be. */
  predicate LocksKeys(phase: Phase) {
    phase.Registering? || phase.Acquiring? || phase.Failing? || phase.Closing? || phase.Applied?
  }

  ghost predicate PhaseFitsMode(x: Tx) {
    && (x.mode == UnknownMode <==> x.phase.Rejected?)
    && (LocksKeys(x.phase) ==> x.mode == ReadCommitted)
    && (x.phase.Buffering? || x.phase.Committing? || x.phase.Unlocking? ==>
        x.mode == ReadCommitted || x.mode == Serialized)
    && (x.phase.Closing? || (InCommit(x) && !x.phase.Deciding?) ==> !x.active)
    && (x.phase.Deciding? ==> (x.active <==> !x.raced))
    && (!HandedOut(x) ==> x.active && x.buffer == map[] && x.pendingRollbacks == 0)
    && (x.mode == ReadCommitted && x.pendingRollbacks > 0 ==> !x.active)
    && (x.raced || x.exposed ==> x.mode == ReadCommitted && !x.active && HandedOut(x))
  }

  ghost predicate TxInv(table: Table, t: TxId, x: Tx) {
    && t != NO_TX
    && PhaseFitsMode(x)
    // The hold is given back once, and once more after a race; the callback acts at most once.
    && x.releases == (if Holds(x) || !HandedOut(x) then 0 else 1) + (if x.raced then 1 else 0)
    && x.callbacks <= 1 && (x.active || (InCommit(x) && !x.raced) ==> x.callbacks == 0)
    // Key locks live as long as the transaction, and through its commit unless a Rollback releases them.
    && (t in table.registered ==>
          x.mode == ReadCommitted && HandedOut(x) && !x.raced && !x.exposed
          && (x.active || x.phase.Committing? || x.phase.Applied?))
    && (x.mode == ReadCommitted && HandedOut(x) && Uncounted(x) && !x.raced && !x.exposed ==> t in table.registered)
    && (x.mode == ReadCommitted && Uncounted(x) && !x.raced && !x.exposed ==> OwnsBuffer(table, t, x))
    && (x.mode == ReadCommitted && x.active && x.phase.Buffering? && x.phase.key !in x.gaveUp ==>
        Owns(table, t, x.phase.key))
  }

  /** Every buffered key is owned, except those whose wait was given up. */
  ghost predicate OwnsBuffer(table: Table, t: TxId, x: Tx) {
    forall key :: key in x.buffer && key !in x.gaveUp ==> Owns(table, t, key)
  }

  ghost predicate TxOk(s: System, t: TxId)
    requires t in s.txs
  {
    TxInv(s.table, t, s.txs[t])
  }

  ghost predicate SystemInv(s: System) {
    && Inv(s.table)
    && s.table.registered <= s.txs.Keys
    && (forall t {:trigger TxOk(s, t)} :: t in s.txs ==> TxOk(s, t))
    // Each race takes one more from the count of readers than there are holders to leave.
    && (if s.fatal then |Having(s.txs, Raced)| > 0
        else s.readers + |Having(s.txs, Raced)| == |Having(s.txs, HoldsShared)|)
    && |Having(s.txs, HoldsExclusive)| == (if s.writer then 1 else 0)
    && (s.writer ==> s.readers == 0)
    && s.completed + s.aborted + s.lostBegins + |Having(s.txs, Uncounted)| == s.started + |Having(s.txs, Raced)|
  }

  lemma CountWithout(a: set<TxId>, t: TxId)
    ensures |a| == |a - {t}| + Has(t in a)
  {
    if t in a {
      assert a == (a - {t}) + {t};
    } else {
      assert a == a - {t};
    }
  }

  function Has(b: bool): int { if b then 1 else 0 }

  /** What transaction `t` adds to a count of those having `p`. */
  function Share(txs: map<TxId, Tx>, t: TxId, p: Tx -> bool): int { Has(t in txs && p(txs[t])) }

  lemma OthersHaving(txs: map<TxId, Tx>, t: TxId, y: Tx, p: Tx -> bool)
    ensures Having(txs, p) - {t} == Having(txs[t := y], p) - {t}
    ensures t in Having(txs, p) <==> t in txs && p(txs[t])
    ensures t in Having(txs[t := y], p) <==> p(y)
  {
  }

  /** The change of every counter when one transaction moves to `y`. */
  lemma Recount(txs: map<TxId, Tx>, t: TxId, y: Tx, p: Tx -> bool)
    ensures |Having(txs[t := y], p)| == |Having(txs, p)| - Share(txs, t, p) + Has(p(y))
  {
    OthersHaving(txs, t, y, p);
    CountWithout(Having(txs, p), t);
    CountWithout(Having(txs[t := y], p), t);
  }

  /** A holder shows in the lock's state unless some transaction was raced. */
  lemma HolderIsCounted(s: System, t: TxId)
    requires SystemInv(s) && !s.fatal && t in s.txs && Holds(s.txs[t])
    ensures s.txs[t].mode == Serialized ==> s.writer
    ensures s.txs[t].mode != Serialized ==> s.readers > 0 || |Having(s.txs, Raced)| > 0
  {
    assert s.txs[t].mode == Serialized ==> t in Having(s.txs, HoldsExclusive);
    assert s.txs[t].mode != Serialized ==> t in Having(s.txs, HoldsShared);
  }

  /** What a lock-table step by `t` leaves alone in every other transaction's view. */
  ghost predicate OthersUntouched(table: Table, table': Table, t: TxId) {
    && (forall u :: u != t ==> (u in table'.registered <==> u in table.registered))
    && (forall u, key :: u != t && Owns(table, u, key) ==> Owns(table', u, key))
  }

  /** The isolation lock and the counters moved as transaction `t` did. */
  ghost predicate Accounts(s: System, s': System, t: TxId)
    requires t in s'.txs
  {
    var y := s'.txs[t];
    && (if s'.fatal then |Having(s.txs, Raced)| + Has(y.raced) - Share(s.txs, t, Raced) > 0
        else !s.fatal && s'.readers - Has(HoldsShared(y)) + Has(y.raced)
             == s.readers - Share(s.txs, t, HoldsShared) + Share(s.txs, t, Raced))
    && Has(s'.writer) - Has(HoldsExclusive(y)) == Has(s.writer) - Share(s.txs, t, HoldsExclusive)
    && (s'.writer ==> s'.readers == 0)
    && s'.completed + s'.aborted + s'.lostBegins + Has(Uncounted(y)) - Has(y.raced) - s'.started
       == s.completed + s.aborted + s.lostBegins + Share(s.txs, t, Uncounted) - Share(s.txs, t, Raced) - s.started
  }

  /** Rebuild the invariant after one transaction and, possibly, the lock table changed. */
  lemma Rebuild(s: System, s': System, t: TxId)
    requires SystemInv(s) && t in s'.txs
    requires s'.txs == s.txs[t := s'.txs[t]]
    requires Inv(s'.table) && OthersUntouched(s.table, s'.table, t)
    requires TxInv(s'.table, t, s'.txs[t])
    requires Accounts(s, s', t)
    ensures SystemInv(s')
  {
    var y := s'.txs[t];
    Recount(s.txs, t, y, HoldsShared);
    Recount(s.txs, t, y, HoldsExclusive);
    Recount(s.txs, t, y, Uncounted);
    Recount(s.txs, t, y, Raced);
    forall u | u in s'.txs ensures TxOk(s', u) {
      if u != t {
        assert TxOk(s, u);
      }
    }
  }

  // --- every step keeps the invariant -------------------------------------------------------------

  lemma OthersUntouchedBy(table: Table, step: LockTable.Step, table': Table)
    requires LockTable.Next(table, step, table') && !step.DetectStep?
    ensures OthersUntouched(table, table', step.tx)
  {
  }

  lemma TableStep(table: Table, step: LockTable.Step, table': Table)
    requires Inv(table) && LockTable.Next(table, step, table') && !step.DetectStep?
    ensures Inv(table') && OthersUntouched(table, table', step.tx)
  {
    StepKeepsInv(table, step, table');
    OthersUntouchedBy(table, step, table');
  }

  lemma StartTxKeeps(s: System, t: TxId, mode: Mode)
    requires SystemInv(s) && !s.fatal && t !in s.txs && t != NO_TX
    ensures SystemInv(StartTx(s, t, mode))
  {
    Rebuild(s, StartTx(s, t, mode), t);
  }

  lemma BeginFailedKeeps(s: System)
    requires SystemInv(s)
    ensures SystemInv(LoseBegin(s))
  {
    forall t | t in s.txs ensures TxOk(LoseBegin(s), t) {
      assert TxOk(s, t);
    }
  }

  lemma TakeIsolationKeeps(s: System, t: TxId)
    requires SystemInv(s) && !s.fatal && t in s.txs && s.txs[t].phase.Beginning?
    requires !s.writer && (s.txs[t].mode == Serialized ==> s.readers == 0)
    ensures SystemInv(TakeIsolation(s, t))
  {
    assert TxOk(s, t);
    Rebuild(s, TakeIsolation(s, t), t);
  }

  lemma EnrollKeeps(s: System, t: TxId)
    requires SystemInv(s) && !s.fatal && t in s.txs && s.txs[t].phase.Registering?
    ensures SystemInv(Enroll(s, t))
  {
    var s' := Enroll(s, t);
    assert TxOk(s, t);
    TableStep(s.table, RegisterStep(t), s'.table);
    Rebuild(s, s', t);
  }

  /** A change that matters to none of the counts. */
  ghost predicate SameCounts(x: Tx, y: Tx) {
    Holds(x) == Holds(y) && Uncounted(x) == Uncounted(y) && x.mode == y.mode && x.raced == y.raced
  }

  /** Changing only the phase, the buffer or the pending calls of a transaction. */
  lemma RephaseKeeps(s: System, t: TxId, y: Tx)
    requires SystemInv(s) && t in s.txs && TxInv(s.table, t, y) && SameCounts(s.txs[t], y)
    ensures SystemInv(Set(s, t, y))
  {
    Rebuild(s, Set(s, t, y), t);
  }

  lemma StartWriteKeeps(s: System, t: TxId, key: Key, write: Option<Value>)
    requires SystemInv(s) && !s.fatal && t in s.txs && s.txs[t].phase.Idle?
    ensures SystemInv(StartWrite(s, t, key, write))
  {
    var s' := StartWrite(s, t, key, write);
    assert TxOk(s, t);
    if s' != s {
      RephaseKeeps(s, t, s'.txs[t]);
    }
  }

  lemma AbandonWaitKeeps(s: System, t: TxId)
    requires SystemInv(s) && !s.fatal && t in s.txs && s.txs[t].phase.Acquiring?
    ensures SystemInv(AbandonWait(s, t))
  {
    assert TxOk(s, t);
    RephaseKeeps(s, t, AbandonWait(s, t).txs[t]);
  }

  lemma StoreWriteKeeps(s: System, t: TxId)
    requires SystemInv(s) && !s.fatal && t in s.txs && s.txs[t].phase.Buffering?
    ensures SystemInv(StoreWrite(s, t))
  {
    assert TxOk(s, t);
    RephaseKeeps(s, t, StoreWrite(s, t).txs[t]);
  }

  /** An attempt never takes a key away from anyone. */
  lemma AttemptKeepsAll(table: Table, t: TxId, key: Key)
    ensures Attempt(table, key, t).registered == table.registered
    ensures forall u, k :: Owns(table, u, k) ==> Owns(Attempt(table, key, t), u, k)
  {
  }

  /** A new lock table in which nobody lost a registration or a key. */
  lemma RetableKeeps(s: System, table': Table)
    requires SystemInv(s) && Inv(table') && table'.registered == s.table.registered
    requires forall t, key :: Owns(s.table, t, key) ==> Owns(table', t, key)
    ensures SystemInv(s.(table := table'))
  {
    forall t | t in s.txs ensures TxOk(s.(table := table'), t) {
      assert TxOk(s, t);
    }
  }

  lemma AttemptKeepsTxs(s: System, t: TxId, key: Key)
    requires SystemInv(s)
    ensures SystemInv(s.(table := Attempt(s.table, key, t)))
  {
    TableStep(s.table, AttemptStep(t, key), Attempt(s.table, key, t));
    AttemptKeepsAll(s.table, t, key);
    RetableKeeps(s, Attempt(s.table, key, t));
  }

  lemma TriedTx(table: Table, t: TxId, x: Tx, outcome: Outcome)
    requires TxInv(table, t, x) && x.phase.Acquiring? && (outcome == Acquired ==> Owns(table, t, x.phase.key))
    ensures TxInv(table, t, Tried(x, outcome)) && SameCounts(x, Tried(x, outcome))
  {
  }

  lemma TryLockKeeps(s: System, t: TxId)
    requires SystemInv(s) && !s.fatal && t in s.txs && s.txs[t].phase.Acquiring?
    ensures SystemInv(TryLock(s, t))
  {
    var x, key := s.txs[t], s.txs[t].phase.key;
    var s1, outcome := s.(table := Attempt(s.table, key, t)), AttemptOutcome(s.table, key, t);
    AttemptKeepsTxs(s, t, key);
    assert TxOk(s1, t);
    TriedTx(s1.table, t, x, outcome);
    RephaseKeeps(s1, t, Tried(x, outcome));
  }

  // --- leaving: the isolation hold is given back ---------------------------------------------------

  /** One holder fewer; fatal when nobody is counted as holding. */
  function Freed(s: System, mode: Mode): System {
    if mode == Serialized then
      if s.writer then s.(writer := false) else s.(fatal := true)
    else
      if s.readers > 0 then s.(readers := s.readers - 1) else s.(fatal := true)
  }

  lemma SetTwice(s: System, t: TxId, x: Tx, y: Tx)
    ensures Set(Set(s, t, x), t, y) == Set(s, t, y)
  {
    assert s.txs[t := x][t := y] == s.txs[t := y];
  }

  lemma SetSame(s: System, t: TxId)
    requires t in s.txs
    ensures Set(s, t, s.txs[t]) == s
  {
    assert s.txs[t := s.txs[t]] == s.txs;
  }

  lemma UnlockShape(s: System, t: TxId, x: Tx)
    ensures Unlock(Set(s, t, x), t) == Freed(Set(s, t, x.(releases := x.releases + 1)), x.mode)
  {
    SetTwice(s, t, x, x.(releases := x.releases + 1));
  }

  /** What a step that gives back the hold of `t` leaves, with `t` as `y` and the counters moved. */
  function Left(s: System, t: TxId, y: Tx, table: Table, completed: nat, aborted: nat): System {
    Freed(Set(s.(table := table, completed := s.completed + completed, aborted := s.aborted + aborted), t, y), y.mode)
  }

  /** The transaction that left may be changed further. */
  lemma SetAfterLeft(s: System, t: TxId, y: Tx, table: Table, completed: nat, aborted: nat, z: Tx)
    requires z.mode == y.mode
    ensures var left := Left(s, t, y, table, completed, aborted);
      t in left.txs && left.txs[t] == y && Set(left, t, z) == Left(s, t, z, table, completed, aborted)
  {
    SetTwice(s.(table := table, completed := s.completed + completed, aborted := s.aborted + aborted), t, y, z);
  }

  /** The counters do not matter to giving back. */
  lemma CountAfterFreed(s: System, mode: Mode, completed: nat, aborted: nat)
    ensures Freed(s, mode).(completed := completed, aborted := aborted)
         == Freed(s.(completed := completed, aborted := aborted), mode)
  {
  }

  /** Unlocking after a change of the transaction and of the table, with the counters moved afterwards. */
  lemma UnlockIsLeft(s: System, t: TxId, x: Tx, table: Table, completed: nat, aborted: nat)
    ensures Unlock(Set(s.(table := table), t, x), t).(completed := s.completed + completed,
      aborted := s.aborted + aborted)
         == Left(s, t, x.(releases := x.releases + 1), table, completed, aborted)
  {
    var y := x.(releases := x.releases + 1);
    UnlockShape(s.(table := table), t, x);
    CountAfterFreed(Set(s.(table := table), t, y), x.mode, s.completed + completed, s.aborted + aborted);
  }

  lemma LeavingKeeps(s: System, t: TxId, y: Tx, table: Table, completed: nat, aborted: nat)
    requires SystemInv(s) && !s.fatal && t in s.txs && Holds(s.txs[t]) && !Holds(y)
    requires y.mode == s.txs[t].mode && y.raced == s.txs[t].raced
    requires Inv(table) && OthersUntouched(s.table, table, t) && TxInv(table, t, y)
    requires completed + aborted == Has(Uncounted(s.txs[t])) && !Uncounted(y)
    ensures SystemInv(Left(s, t, y, table, completed, aborted))
  {
    HolderIsCounted(s, t);
    Rebuild(s, Left(s, t, y, table, completed, aborted), t);
  }

  lemma Untouched(table: Table, t: TxId)
    ensures OthersUntouched(table, table, t)
  {
  }

  function Released(x: Tx): Tx {
    if !x.active then x
    else x.(active := false, buffer := map[], callbacks := x.callbacks + 1, releases := x.releases + 1)
  }

  lemma ReleaseKeysShape(s: System, t: TxId)
    requires t in s.txs && t in s.table.registered
    ensures ReleaseKeys(s, t)
         == if s.txs[t].active then Left(s, t, Released(s.txs[t]), Release(s.table, t), 0, 1)
            else s.(table := Release(s.table, t))
  {
    var x := s.txs[t];
    if x.active {
      var y := x.(active := false, buffer := map[], callbacks := x.callbacks + 1);
      UnlockIsLeft(s, t, y, Release(s.table, t), 0, 1);
    }
  }

  /** A transaction closed by the release of its key locks, or already closed. */
  lemma ReleasedTx(table: Table, table': Table, t: TxId, x: Tx)
    requires TxInv(table, t, x) && HandedOut(x) && !x.phase.Committing? && !x.phase.Deciding?
    requires t !in table'.registered && x.mode == ReadCommitted
    ensures TxInv(table', t, Released(x)) && (x.active ==> Holds(x) && !Holds(Released(x)))
  {
  }

  /** Releasing the key locks of a transaction that is not waiting to apply its batch closes it, once. */
  lemma ReleaseKeysKeeps(s: System, t: TxId)
    requires SystemInv(s) && !s.fatal && t in s.txs && HandedOut(s.txs[t])
    requires t in s.table.registered ==> !s.txs[t].phase.Committing? && !s.txs[t].phase.Deciding?
    ensures SystemInv(ReleaseKeys(s, t))
  {
    var x, table' := s.txs[t], Release(s.table, t);
    assert TxOk(s, t);
    if t in s.table.registered {
      TableStep(s.table, ReleaseStep(t), table');
      ReleaseKeysShape(s, t);
      ReleasedTx(s.table, table', t, x);
      if x.active {
        LeavingKeeps(s, t, Released(x), table', 0, 1);
      } else {
        assert s.txs[t := x] == s.txs;
        Rebuild(s, s.(table := table'), t);
      }
    }
  }

  /** What is left of the transaction after a release, whoever made it. */
  lemma AfterRelease(s: System, t: TxId)
    requires t in s.txs
    ensures t !in ReleaseKeys(s, t).table.registered
    ensures ReleaseKeys(s, t).txs[t] == if t in s.table.registered then Released(s.txs[t]) else s.txs[t]
  {
    if t in s.table.registered {
      ReleaseKeysShape(s, t);
    }
  }

  function RolledBack(x: Tx): Tx {
    x.(active := false, buffer := map[], releases := x.releases + 1)
  }

  lemma RollbackLockedShape(s: System, t: TxId)
    requires t in s.txs && (s.txs[t].mode == ReadOnly || s.txs[t].mode == Serialized)
    ensures RollbackLocked(s, t) == if s.txs[t].active then Left(s, t, RolledBack(s.txs[t]), s.table, 0, 1) else s
  {
    UnlockIsLeft(s, t, s.txs[t].(active := false, buffer := map[]), s.table, 0, 1);
  }

  lemma RolledBackTx(table: Table, t: TxId, x: Tx)
    requires TxInv(table, t, x) && x.phase.Idle? && x.active && (x.mode == ReadOnly || x.mode == Serialized)
    ensures TxInv(table, t, RolledBack(x)) && Holds(x) && !Holds(RolledBack(x)) && Uncounted(x)
  {
  }

  /** The part of a rollback under the transaction's mutex; a read-committed transaction is closed by then. */
  lemma RollbackLockedKeeps(s: System, t: TxId)
    requires SystemInv(s) && !s.fatal && t in s.txs && (s.txs[t].phase.Idle? || s.txs[t].phase.Closing?)
    requires s.txs[t].mode == ReadCommitted ==> !s.txs[t].active
    ensures SystemInv(RollbackLocked(s, t))
    ensures !RollbackLocked(s, t).txs[t].active && HandedOut(RollbackLocked(s, t).txs[t])
  {
    var x := s.txs[t];
    assert TxOk(s, t);
    if x.active {
      RollbackLockedShape(s, t);
      RolledBackTx(s.table, t, x);
      Untouched(s.table, t);
      LeavingKeeps(s, t, RolledBack(x), s.table, 0, 1);
    }
  }

  lemma RephasedAfterRelease(table: Table, t: TxId, x: Tx, phase: Phase)
    requires TxInv(table, t, x) && t !in table.registered && x.mode == ReadCommitted && !x.active
    requires (x.phase.Failing? && phase == Closing) || (x.phase.Applied? && phase == Unlocking)
    ensures var y := x.(phase := phase); TxInv(table, t, y) && SameCounts(x, y)
  {
  }

  lemma ReleaseThenKeeps(s: System, t: TxId, phase: Phase)
    requires SystemInv(s) && !s.fatal && t in s.txs
    requires (s.txs[t].phase.Failing? && phase == Closing) || (s.txs[t].phase.Applied? && phase == Unlocking)
    ensures SystemInv(ReleaseThen(s, t, phase))
  {
    var s1 := ReleaseKeys(s, t);
    assert TxOk(s, t);
    ReleaseKeysKeeps(s, t);
    AfterRelease(s, t);
    assert TxOk(s1, t);
    RephasedAfterRelease(s1.table, t, s1.txs[t], phase);
    RephaseKeeps(s1, t, s1.txs[t].(phase := phase));
  }

  lemma CloseThenIdleKeeps(s: System, t: TxId)
    requires SystemInv(s) && !s.fatal && t in s.txs && s.txs[t].phase.Closing?
    ensures SystemInv(CloseThenIdle(s, t))
  {
    assert TxOk(s, t);
    assert RollbackLocked(s, t) == s;
    RephaseKeeps(s, t, s.txs[t].(phase := Idle));
  }

  lemma StartCommitKeeps(s: System, t: TxId)
    requires SystemInv(s) && !s.fatal && t in s.txs && s.txs[t].phase.Idle?
    ensures SystemInv(StartCommit(s, t))
  {
    assert TxOk(s, t);
    if s.txs[t].active {
      RephaseKeeps(s, t, s.txs[t].(phase := Deciding));
    }
  }

  lemma ClosedForCommitTx(table: Table, t: TxId, x: Tx)
    requires TxInv(table, t, x) && x.phase.Deciding?
    ensures var y := x.(active := false, phase := Committing);
      x.mode != ReadOnly ==> TxInv(table, t, y) && SameCounts(x, y)
    ensures var y := x.(active := false, phase := Idle, releases := x.releases + 1);
      x.mode == ReadOnly ==> TxInv(table, t, y) && Holds(x) && !Holds(y) && Uncounted(x) && x.raced == y.raced
  {
  }

  /** Commit's reset of `active`, with or without a race before it. */
  lemma CloseCommitKeeps(s: System, t: TxId)
    requires SystemInv(s) && !s.fatal && t in s.txs && s.txs[t].phase.Deciding?
    ensures SystemInv(CloseCommit(s, t))
  {
    var x := s.txs[t];
    assert TxOk(s, t);
    ClosedForCommitTx(s.table, t, x);
    if x.mode == ReadOnly {
      UnlockIsLeft(s, t, x.(active := false, phase := Idle), s.table, 1, 0);
      Untouched(s.table, t);
      LeavingKeeps(s, t, x.(active := false, phase := Idle, releases := x.releases + 1), s.table, 1, 0);
    } else {
      RephaseKeeps(s, t, x.(active := false, phase := Committing));
    }
  }

  lemma AppliedTx(table: Table, t: TxId, x: Tx, y: Tx)
    requires TxInv(table, t, x) && x.phase.Committing?
    requires y == x.(phase := if x.mode == ReadCommitted then Applied else Unlocking)
    ensures TxInv(table, t, y) && Holds(y) == Holds(x) && Uncounted(x) && !Uncounted(y)
  {
  }

  lemma ApplyShape(s: System, t: TxId, ok: bool, applied: bool)
    requires t in s.txs
    ensures var s', x := ApplyBuffer(s, t, ok, applied), s.txs[t];
      && s'.txs == s.txs[t := x.(phase := if x.mode == ReadCommitted then Applied else Unlocking)]
      && s'.table == s.table && s'.readers == s.readers && s'.writer == s.writer && s'.fatal == s.fatal
      && s'.completed + s'.aborted == s.completed + s.aborted + 1
      && s'.started == s.started && s'.lostBegins == s.lostBegins
  {
  }

  lemma ApplyBufferKeeps(s: System, t: TxId, ok: bool, applied: bool)
    requires SystemInv(s) && !s.fatal && t in s.txs && s.txs[t].phase.Committing? && (ok ==> applied)
    ensures SystemInv(ApplyBuffer(s, t, ok, applied))
  {
    var s' := ApplyBuffer(s, t, ok, applied);
    assert TxOk(s, t);
    AppliedTx(s.table, t, s.txs[t], s'.txs[t]);
    Untouched(s.table, t);
    ApplyShape(s, t, ok, applied);
    Rebuild(s, s', t);
  }

  lemma UnlockedTx(table: Table, t: TxId, x: Tx)
    requires TxInv(table, t, x) && x.phase.Unlocking?
    ensures var y := x.(phase := Idle, releases := x.releases + 1);
      TxInv(table, t, y) && Holds(x) && !Holds(y) && !Uncounted(x)
  {
  }

  lemma UnlockThenIdleKeeps(s: System, t: TxId)
    requires SystemInv(s) && !s.fatal && t in s.txs && s.txs[t].phase.Unlocking?
    ensures SystemInv(UnlockThenIdle(s, t))
  {
    var x := s.txs[t];
    assert TxOk(s, t);
    UnlockedTx(s.table, t, x);
    Untouched(s.table, t);
    LeavingKeeps(s, t, x.(phase := Idle, releases := x.releases + 1), s.table, 0, 0);
    UnlockThenIdleShape(s, t);
  }

  lemma UnlockThenIdleShape(s: System, t: TxId)
    requires t in s.txs
    ensures UnlockThenIdle(s, t)
         == Left(s, t, s.txs[t].(phase := Idle, releases := s.txs[t].releases + 1), s.table, 0, 0)
  {
    var x := s.txs[t];
    var y := x.(releases := x.releases + 1);
    SetSame(s, t);
    UnlockShape(s, t, x);
    SetAfterLeft(s, t, y, s.table, 0, 0, y.(phase := Idle));
  }

  // --- Rollback, at any moment -----------------------------------------------------------------------

  lemma PendingTx(table: Table, t: TxId, x: Tx, pending: nat)
    requires TxInv(table, t, x) && HandedOut(x) && (x.mode == ReadCommitted ==> !x.active)
    ensures var y := x.(pendingRollbacks := pending); TxInv(table, t, y) && SameCounts(x, y)
  {
  }

  /** The transaction after a Rollback that raced with its commit: the hold is gone, and will be given back again. */
  function RacedTx(x: Tx, kept: bool): Tx {
    Released(x).(pendingRollbacks := x.pendingRollbacks + 1, raced := true, buffer := if kept then x.buffer else map[])
  }

  lemma RacedTxInv(table: Table, table': Table, t: TxId, x: Tx, kept: bool)
    requires TxInv(table, t, x) && x.phase.Deciding? && t in table.registered && t !in table'.registered
    ensures TxInv(table', t, RacedTx(x, kept))
    ensures x.active && HoldsShared(x) && HoldsShared(RacedTx(x, kept)) && Uncounted(x) && Uncounted(RacedTx(x, kept))
  {
  }

  lemma RaceShape(s: System, t: TxId, kept: bool)
    requires t in s.txs && t in s.table.registered && s.txs[t].phase.Deciding? && s.txs[t].active
    ensures StartRollback(s, t, kept) == Left(s, t, RacedTx(s.txs[t], kept), Release(s.table, t), 0, 1)
  {
    ReleaseKeysShape(s, t);
    SetAfterLeft(s, t, Released(s.txs[t]), Release(s.table, t), 0, 1, RacedTx(s.txs[t], kept));
  }

  lemma RaceKeeps(s: System, t: TxId, kept: bool)
    requires SystemInv(s) && !s.fatal && t in s.txs && t in s.table.registered && s.txs[t].phase.Deciding?
    ensures SystemInv(StartRollback(s, t, kept))
  {
    var x := s.txs[t];
    assert TxOk(s, t);
    TableStep(s.table, ReleaseStep(t), Release(s.table, t));
    RacedTxInv(s.table, Release(s.table, t), t, x, kept);
    HolderIsCounted(s, t);
    RaceShape(s, t, kept);
    Rebuild(s, StartRollback(s, t, kept), t);
  }

  function ExposedTx(x: Tx): Tx { x.(pendingRollbacks := x.pendingRollbacks + 1, exposed := true) }

  lemma ExposedTxInv(table: Table, table': Table, t: TxId, x: Tx)
    requires TxInv(table, t, x) && x.phase.Committing? && t in table.registered && t !in table'.registered
    ensures !x.active && TxInv(table', t, ExposedTx(x)) && SameCounts(x, ExposedTx(x))
  {
  }

  lemma ExposeKeeps(s: System, t: TxId, kept: bool)
    requires SystemInv(s) && !s.fatal && t in s.txs && t in s.table.registered && s.txs[t].phase.Committing?
    ensures SystemInv(StartRollback(s, t, kept))
    ensures StartRollback(s, t, kept) == Set(s.(table := Release(s.table, t)), t, ExposedTx(s.txs[t]))
  {
    var x := s.txs[t];
    assert TxOk(s, t);
    TableStep(s.table, ReleaseStep(t), Release(s.table, t));
    ExposedTxInv(s.table, Release(s.table, t), t, x);
    Rebuild(s, StartRollback(s, t, kept), t);
  }

  lemma CalmRollbackKeeps(s: System, t: TxId, kept: bool)
    requires SystemInv(s) && !s.fatal && t in s.txs && HandedOut(s.txs[t])
    requires t in s.table.registered ==> !s.txs[t].phase.Committing? && !s.txs[t].phase.Deciding?
    ensures SystemInv(StartRollback(s, t, kept))
  {
    var s1, n := ReleaseKeys(s, t), s.txs[t].pendingRollbacks + 1;
    assert TxOk(s, t);
    ReleaseKeysKeeps(s, t);
    AfterRelease(s, t);
    assert TxOk(s1, t);
    PendingTx(s1.table, t, s1.txs[t], n);
    RephaseKeeps(s1, t, s1.txs[t].(pendingRollbacks := n));
    assert StartRollback(s, t, kept) == Set(s1, t, s1.txs[t].(pendingRollbacks := n));
  }

  /** Rollback's first part, at whatever point the transaction's own call is. */
  lemma StartRollbackKeeps(s: System, t: TxId, kept: bool)
    requires SystemInv(s) && !s.fatal && t in s.txs && HandedOut(s.txs[t])
    ensures SystemInv(StartRollback(s, t, kept))
  {
    if t in s.table.registered && s.txs[t].phase.Deciding? {
      RaceKeeps(s, t, kept);
    } else if t in s.table.registered && s.txs[t].phase.Committing? {
      ExposeKeeps(s, t, kept);
    } else {
      CalmRollbackKeeps(s, t, kept);
    }
  }

  /** Rollback's second part never finds a read-committed transaction open, so it reports a closed one. */
  lemma RollbackReportsClosed(s: System, t: TxId)
    requires SystemInv(s) && Enabled(s, RollbackFinish(t))
    ensures s.txs[t].mode == ReadCommitted ==> !s.txs[t].active
    ensures RollbackLocked(s, t) == s <==> !s.txs[t].active
    ensures s.txs[t].active ==> RollbackLocked(s, t).aborted == s.aborted + 1
  {
    assert TxOk(s, t);
    if s.txs[t].active {
      RollbackLockedShape(s, t);
    }
  }

  lemma EndRollbackKeeps(s: System, t: TxId)
    requires SystemInv(s) && !s.fatal && t in s.txs && s.txs[t].phase.Idle? && s.txs[t].pendingRollbacks > 0
    ensures SystemInv(EndRollback(s, t))
  {
    assert TxOk(s, t);
    RollbackLockedKeeps(s, t);
    ClosedKeeps(RollbackLocked(s, t), t, s.txs[t].pendingRollbacks - 1);
  }

  lemma ClosedKeeps(s: System, t: TxId, pending: nat)
    requires SystemInv(s) && t in s.txs && !s.txs[t].active && HandedOut(s.txs[t])
    ensures SystemInv(Set(s, t, s.txs[t].(pendingRollbacks := pending)))
  {
    assert TxOk(s, t);
    PendingTx(s.table, t, s.txs[t], pending);
    RephaseKeeps(s, t, s.txs[t].(pendingRollbacks := pending));
  }

  lemma EndRollbackShape(s: System, t: TxId)
    requires t in s.txs && s.txs[t].pendingRollbacks > 0 && s.txs[t].active
    requires s.txs[t].mode == ReadOnly || s.txs[t].mode == Serialized
    ensures EndRollback(s, t)
         == Left(s, t, RolledBack(s.txs[t]).(pendingRollbacks := s.txs[t].pendingRollbacks - 1), s.table, 0, 1)
  {
    var x, y := s.txs[t], RolledBack(s.txs[t]);
    var z, left := y.(pendingRollbacks := x.pendingRollbacks - 1), Left(s, t, RolledBack(s.txs[t]), s.table, 0, 1);
    RollbackLockedShape(s, t);
    SetAfterLeft(s, t, y, s.table, 0, 1, z);
    assert EndRollback(s, t) == Set(left, t, z);
  }

  lemma MarkVictimKeeps(s: System, start: TxId, table': Table)
    requires SystemInv(s) && Detect(s.table, start, table')
    ensures SystemInv(s.(table := table'))
  {
    StepKeepsInv(s.table, DetectStep(start), table');
    RetableKeeps(s, table');
  }

  lemma StepKeepsSystemInv(s: System, step: Step)
    requires SystemInv(s) && Enabled(s, step)
    ensures SystemInv(Do(s, step))
  {
    match step
    case Begin(t, mode) => StartTxKeeps(s, t, mode);
    case BeginFailed(_) => BeginFailedKeeps(s);
    case LockIsolation(t) => TakeIsolationKeeps(s, t);
    case RegisterTx(t) => EnrollKeeps(s, t);
    case Write(t, key, write) => StartWriteKeeps(s, t, key, write);
    case AttemptLock(t) => TryLockKeeps(s, t);
    case GiveUp(t) => AbandonWaitKeeps(s, t);
    case ReleaseFailed(t) => ReleaseThenKeeps(s, t, Closing);
    case CloseFailed(t) => CloseThenIdleKeeps(s, t);
    case BufferWrite(t) => StoreWriteKeeps(s, t);
    case Commit(t) => StartCommitKeeps(s, t);
    case CloseForCommit(t) => CloseCommitKeeps(s, t);
    case Apply(t, ok, applied) => ApplyBufferKeeps(s, t, ok, applied);
    case ReleaseCommitted(t) => ReleaseThenKeeps(s, t, Unlocking);
    case UnlockIsolation(t) => UnlockThenIdleKeeps(s, t);
    case RollbackRelease(t, kept) => StartRollbackKeeps(s, t, kept);
    case RollbackFinish(t) => EndRollbackKeeps(s, t);
    case MarkVictim(start, v) => MarkVictimKeeps(s, start, s.table.(victims := s.table.victims + {v}));
  }

  lemma StartInv()
    ensures SystemInv(START)
  {
    assert Having(START.txs, HoldsShared) == Having(START.txs, HoldsExclusive) == {};
    assert Having(START.txs, Uncounted) == Having(START.txs, Raced) == {};
  }

  /** The invariant holds in every state of every interleaving. */
  lemma {:induction false} RunKeepsSystemInv(states: seq<System>, steps: seq<Step>, n: nat)
    requires Run(states, steps) && n < |states|
    ensures SystemInv(states[n])
  {
    if n == 0 {
      StartInv();
    } else {
      RunKeepsSystemInv(states, steps, n - 1);
      assert StepAt(states, steps, n - 1);
      StepKeepsSystemInv(states[n - 1], steps[n - 1]);
    }
  }

  // --- how one step moves one transaction ---------------------------------------------------------

  /** A Rollback that hits a commit between its test of `active` and the application of its batch. */
  predicate Interrupts(s: System, step: Step) {
    && step.RollbackRelease? && step.tx in s.txs && s.txs[step.tx].mode == ReadCommitted
    && (s.txs[step.tx].phase.Deciding? || s.txs[step.tx].phase.Committing?)
  }

  /** Mode is fixed, closed stays closed, and until the batch is applied the buffer only grows. */
  ghost predicate Evolves(x: Tx, y: Tx, buffering: bool, givingUp: bool, interrupting: bool) {
    && y.mode == x.mode
    && (y.gaveUp <= x.gaveUp || givingUp)
    && (if interrupting then Marks(x, y) else y.raced == x.raced && y.exposed == x.exposed)
    && (Uncounted(y) && !y.raced ==>
          Uncounted(x) && !x.raced && x.buffer.Keys <= y.buffer.Keys && (y.buffer == x.buffer || buffering))
  }

  /** What an interrupting Rollback leaves marked, unless an earlier one already released the key locks. */
  ghost predicate Marks(x: Tx, y: Tx) {
    && y.raced == (x.raced || x.phase.Deciding?)
    && y.exposed == (x.exposed || (x.phase.Committing? && !x.raced))
  }

  /** `s'` differs from `s` in transaction `t` only, and leaves storage alone. */
  ghost predicate Moves(s: System, s': System, t: TxId, buffering: bool, givingUp: bool, interrupting: bool)
    requires t in s.txs
  {
    && t in s'.txs
    && s'.txs == s.txs[t := s'.txs[t]]
    && Evolves(s.txs[t], s'.txs[t], buffering, givingUp, interrupting)
    && s'.storage == s.storage
  }

  lemma SetMoves(s: System, t: TxId, y: Tx, buffering: bool, givingUp: bool, interrupting: bool)
    requires t in s.txs && Evolves(s.txs[t], y, buffering, givingUp, interrupting)
    ensures Moves(s, Set(s, t, y), t, buffering, givingUp, interrupting)
  {
  }

  lemma LeftMoves(s: System, t: TxId, y: Tx, table: Table, completed: nat, aborted: nat, interrupting: bool)
    requires t in s.txs && Evolves(s.txs[t], y, false, false, interrupting)
    ensures Moves(s, Left(s, t, y, table, completed, aborted), t, false, false, interrupting)
  {
  }

  lemma BeginStepMoves(s: System, t: TxId)
    requires t in s.txs && !HandedOut(s.txs[t]) && s.txs[t].active
    ensures Moves(s, TakeIsolation(s, t), t, false, false, false) && Moves(s, Enroll(s, t), t, false, false, false)
  {
  }

  lemma WriteMoves(s: System, t: TxId, key: Key, write: Option<Value>)
    requires t in s.txs && s.txs[t].phase.Idle? && (s.txs[t].active ==> !s.txs[t].raced)
    ensures Moves(s, StartWrite(s, t, key, write), t, false, false, false)
  {
    SetSame(s, t);
  }

  lemma TryLockMoves(s: System, t: TxId)
    requires t in s.txs && s.txs[t].phase.Acquiring? && (s.txs[t].active ==> !s.txs[t].raced)
    ensures Moves(s, TryLock(s, t), t, false, false, false)
  {
    var x := s.txs[t];
    var outcome := AttemptOutcome(s.table, x.phase.key, t);
    TriedEvolves(x, outcome);
    SetMoves(s.(table := Attempt(s.table, x.phase.key, t)), t, Tried(x, outcome), false, false, false);
  }

  lemma TriedEvolves(x: Tx, outcome: Outcome)
    requires x.phase.Acquiring? && (x.active ==> !x.raced)
    ensures Evolves(x, Tried(x, outcome), false, false, false)
  {
  }

  lemma StoreMoves(s: System, t: TxId)
    requires t in s.txs && (s.txs[t].active ==> !s.txs[t].raced)
    ensures s.txs[t].phase.Acquiring? ==> Moves(s, AbandonWait(s, t), t, false, true, false)
    ensures s.txs[t].phase.Buffering? ==> Moves(s, StoreWrite(s, t), t, true, false, false)
  {
  }

  lemma CallStepMoves(s: System, step: Step)
    requires SystemInv(s) && Enabled(s, step)
    requires step.LockIsolation? || step.RegisterTx? || step.Write? || step.AttemptLock? || step.GiveUp? ||
      step.BufferWrite?
    ensures Moves(s, Do(s, step), step.tx, step.BufferWrite?, step.GiveUp?, false)
  {
    assert TxOk(s, step.tx);
    match step
    case LockIsolation(t) => BeginStepMoves(s, t);
    case RegisterTx(t) => BeginStepMoves(s, t);
    case Write(t, key, write) => WriteMoves(s, t, key, write);
    case AttemptLock(t) => TryLockMoves(s, t);
    case GiveUp(t) => StoreMoves(s, t);
    case BufferWrite(t) => StoreMoves(s, t);
  }

  lemma StartCommitMoves(s: System, t: TxId)
    requires t in s.txs && (s.txs[t].active ==> !s.txs[t].raced)
    ensures Moves(s, StartCommit(s, t), t, false, false, false)
  {
    SetSame(s, t);
  }

  lemma CloseCommitMoves(s: System, t: TxId)
    requires t in s.txs && s.txs[t].phase.Deciding? && s.txs[t].mode != UnknownMode
    ensures Moves(s, CloseCommit(s, t), t, false, false, false)
  {
    var x := s.txs[t].(active := false, phase := Idle);
    if x.mode == ReadOnly {
      UnlockIsLeft(s, t, x, s.table, 1, 0);
      LeftMoves(s, t, x.(releases := x.releases + 1), s.table, 1, 0, false);
    } else {
      SetMoves(s, t, x.(phase := Committing), false, false, false);
    }
  }

  lemma UnlockStepMoves(s: System, t: TxId)
    requires t in s.txs && s.txs[t].phase.Unlocking? && !s.txs[t].active
    ensures Moves(s, UnlockThenIdle(s, t), t, false, false, false)
  {
    var x := s.txs[t];
    UnlockThenIdleShape(s, t);
    LeftMoves(s, t, x.(phase := Idle, releases := x.releases + 1), s.table, 0, 0, false);
  }

  lemma ReleasedEvolves(x: Tx, y: Tx)
    requires !Uncounted(x.(active := false)) && !y.phase.Deciding? && !y.phase.Committing?
    requires y == Released(x).(phase := y.phase) || (y == x.(phase := y.phase) && (x.active ==> !x.raced))
    ensures Evolves(x, y, false, false, false)
  {
  }

  lemma ReleaseStepMoves(s: System, t: TxId, phase: Phase)
    requires t in s.txs && !Uncounted(s.txs[t].(active := false)) && (s.txs[t].active ==> !s.txs[t].raced)
    requires !phase.Deciding? && !phase.Committing?
    ensures Moves(s, ReleaseThen(s, t, phase), t, false, false, false)
  {
    var x, table' := s.txs[t], Release(s.table, t);
    if t !in s.table.registered {
      ReleasedEvolves(x, x.(phase := phase));
      SetMoves(s, t, x.(phase := phase), false, false, false);
    } else {
      var y := Released(x).(phase := phase);
      ReleasedEvolves(x, y);
      ReleaseKeysShape(s, t);
      if x.active {
        SetAfterLeft(s, t, Released(x), table', 0, 1, y);
        LeftMoves(s, t, y, table', 0, 1, false);
      } else {
        SetMoves(s.(table := table'), t, y, false, false, false);
      }
    }
  }

  lemma CloseFailedMoves(s: System, t: TxId)
    requires t in s.txs && s.txs[t].phase.Closing? && !s.txs[t].active
    ensures Moves(s, CloseThenIdle(s, t), t, false, false, false)
  {
    SetMoves(s, t, s.txs[t].(phase := Idle), false, false, false);
  }

  lemma RollbackFinishMoves(s: System, t: TxId)
    requires t in s.txs && s.txs[t].phase.Idle? && s.txs[t].pendingRollbacks > 0
    requires s.txs[t].active ==> s.txs[t].mode == ReadOnly || s.txs[t].mode == Serialized
    ensures Moves(s, EndRollback(s, t), t, false, false, false)
  {
    var x := s.txs[t];
    if x.active {
      EndRollbackShape(s, t);
      LeftMoves(s, t, RolledBack(x).(pendingRollbacks := x.pendingRollbacks - 1), s.table, 0, 1, false);
    } else {
      SetMoves(s, t, x.(pendingRollbacks := x.pendingRollbacks - 1), false, false, false);
    }
  }

  lemma RollbackMoves(s: System, t: TxId, kept: bool)
    requires SystemInv(s) && Enabled(s, RollbackRelease(t, kept))
    ensures Moves(s, StartRollback(s, t, kept), t, false, false, Interrupts(s, RollbackRelease(t, kept)))
  {
    var x, table' := s.txs[t], Release(s.table, t);
    var interrupting := Interrupts(s, RollbackRelease(t, kept));
    assert TxOk(s, t);
    if t !in s.table.registered {
      SetMoves(s, t, x.(pendingRollbacks := x.pendingRollbacks + 1), false, false, interrupting);
    } else if x.phase.Deciding? {
      RaceShape(s, t, kept);
      LeftMoves(s, t, RacedTx(x, kept), table', 0, 1, true);
    } else if x.phase.Committing? {
      ExposeKeeps(s, t, kept);
      SetMoves(s.(table := table'), t, ExposedTx(x), false, false, true);
    } else {
      CalmRollbackMoves(s, t, kept);
    }
  }

  lemma CalmRollbackMoves(s: System, t: TxId, kept: bool)
    requires t in s.txs && t in s.table.registered && !s.txs[t].phase.Deciding? && !s.txs[t].phase.Committing?
    ensures Moves(s, StartRollback(s, t, kept), t, false, false, false)
  {
    var x, table' := s.txs[t], Release(s.table, t);
    var y := Released(x).(pendingRollbacks := x.pendingRollbacks + 1);
    ReleaseKeysShape(s, t);
    if x.active {
      SetAfterLeft(s, t, Released(x), table', 0, 1, y);
      LeftMoves(s, t, y, table', 0, 1, false);
    } else {
      SetMoves(s.(table := table'), t, y, false, false, false);
    }
  }

  predicate Creates(step: Step) { step.Begin? || step.BeginFailed? || step.MarkVictim? }

  lemma CommitStepMoves(s: System, step: Step)
    requires SystemInv(s) && Enabled(s, step) && (step.Commit? || step.CloseForCommit? || step.UnlockIsolation?)
    ensures Moves(s, Do(s, step), step.tx, false, false, false)
  {
    assert TxOk(s, step.tx);
    match step
    case Commit(t) => StartCommitMoves(s, t);
    case CloseForCommit(t) => CloseCommitMoves(s, t);
    case UnlockIsolation(t) => UnlockStepMoves(s, t);
  }

  lemma FailStepMoves(s: System, step: Step)
    requires SystemInv(s) && Enabled(s, step)
    requires step.ReleaseFailed? || step.ReleaseCommitted? || step.CloseFailed? || step.RollbackFinish?
    ensures Moves(s, Do(s, step), step.tx, false, false, false)
  {
    assert TxOk(s, step.tx);
    match step
    case ReleaseFailed(t) => ReleaseStepMoves(s, t, Closing);
    case ReleaseCommitted(t) => ReleaseStepMoves(s, t, Unlocking);
    case CloseFailed(t) => CloseFailedMoves(s, t);
    case RollbackFinish(t) => RollbackFinishMoves(s, t);
  }

  /** Every step other than a begin, a deadlock detection or the application of a batch. */
  lemma StepMoves(s: System, step: Step)
    requires SystemInv(s) && Enabled(s, step) && !Creates(step) && !step.Apply?
    ensures Moves(s, Do(s, step), step.tx, step.BufferWrite?, step.GiveUp?, Interrupts(s, step))
  {
    if step.Commit? || step.CloseForCommit? || step.UnlockIsolation? {
      CommitStepMoves(s, step);
    } else if step.ReleaseFailed? || step.ReleaseCommitted? || step.CloseFailed? || step.RollbackFinish? {
      FailStepMoves(s, step);
    } else if step.RollbackRelease? {
      RollbackMoves(s, step.tx, step.kept);
    } else {
      CallStepMoves(s, step);
    }
  }

  lemma ApplyFrame(s: System, u: TxId, ok: bool, applied: bool, t: TxId)
    requires u in s.txs && t in s.txs && s.txs[u].phase.Committing?
    ensures var s' := ApplyBuffer(s, u, ok, applied);
      && t in s'.txs && Evolves(s.txs[t], s'.txs[t], false, false, false)
      && (s'.storage == s.storage || (applied && s'.storage == Overlay(s.storage, s.txs[u].buffer)))
  {
    ApplyShape(s, u, ok, applied);
  }

  lemma CreateFrame(s: System, step: Step, t: TxId)
    requires Enabled(s, step) && t in s.txs && Creates(step)
    ensures t in Do(s, step).txs && Do(s, step).txs[t] == s.txs[t] && Do(s, step).storage == s.storage
  {
  }

  /** Every step moves at most its own transaction; only an applied batch changes storage. */
  lemma StepFrame(s: System, step: Step, t: TxId)
    requires SystemInv(s) && Enabled(s, step) && t in s.txs
    ensures t in Do(s, step).txs
    ensures Evolves(s.txs[t], Do(s, step).txs[t],
                    step == BufferWrite(t), step == GiveUp(t), Interrupts(s, step) && step.tx == t)
    ensures Do(s, step).storage == s.storage
         || (step.Apply? && step.applied && Do(s, step).storage == Overlay(s.storage, s.txs[step.tx].buffer))
  {
    if Creates(step) {
      CreateFrame(s, step, t);
    } else if step.Apply? {
      ApplyFrame(s, step.tx, step.ok, step.applied, t);
    } else {
      StepMoves(s, step);
    }
  }

  lemma NewTxs(s: System, step: Step, t: TxId)
    requires SystemInv(s) && Enabled(s, step) && t in Do(s, step).txs && t !in s.txs
    ensures step.Begin? && var y := Do(s, step).txs[t]; y.gaveUp == {} && !y.raced && !y.exposed
  {
    if !Creates(step) && !step.Apply? {
      StepMoves(s, step);
    }
  }

  lemma RunFrame(states: seq<System>, steps: seq<Step>, i: nat, t: TxId)
    requires Run(states, steps) && i < |steps| && t in states[i].txs
    ensures t in states[i + 1].txs
    ensures Evolves(states[i].txs[t], states[i + 1].txs[t],
                    steps[i] == BufferWrite(t), steps[i] == GiveUp(t),
                    Interrupts(states[i], steps[i]) && steps[i].tx == t)
  {
    RunKeepsSystemInv(states, steps, i);
    assert StepAt(states, steps, i);
    StepFrame(states[i], steps[i], t);
  }

  // --- what the invariant gives over whole runs ---------------------------------------------------

  /** Step `i` is a Rollback that hits transaction `t` between its commit's test of `active` and the reset. */
  ghost predicate RacesAt(states: seq<System>, steps: seq<Step>, i: nat, t: TxId) {
    && i < |steps| < |states| && Interrupts(states[i], steps[i])
    && steps[i].tx == t && states[i].txs[t].phase.Deciding?
  }

  /** A transaction is marked as raced exactly when its run contains such a Rollback. */
  lemma {:induction false} RacedExactly(states: seq<System>, steps: seq<Step>, n: nat, t: TxId)
    requires Run(states, steps) && n < |states| && t in states[n].txs
    ensures states[n].txs[t].raced <==> exists i :: 0 <= i < n && RacesAt(states, steps, i, t)
  {
    if n > 0 {
      var m := n - 1;
      assert StepAt(states, steps, m);
      RunKeepsSystemInv(states, steps, m);
      if t in states[m].txs {
        RacedExactly(states, steps, m, t);
        RunFrame(states, steps, m, t);
        assert RacesAt(states, steps, m, t) <==>
          Interrupts(states[m], steps[m]) && steps[m].tx == t && states[m].txs[t].phase.Deciding?;
      } else {
        NewTxs(states[m], steps[m], t);
        NeverBefore(states, steps, m, t);
      }
    }
  }

  lemma {:induction false} NeverBefore(states: seq<System>, steps: seq<Step>, n: nat, t: TxId)
    requires Run(states, steps) && n < |states| && t !in states[n].txs
    ensures forall i :: 0 <= i <= n ==> t !in states[i].txs
  {
    if n > 0 {
      if t in states[n - 1].txs {
        RunFrame(states, steps, n - 1, t);
      } else {
        NeverBefore(states, steps, n - 1, t);
      }
    }
  }

  /**
    In every state of every run a transaction that no longer holds the isolation lock has given it back
    exactly once, and once more if and only if a Rollback raced with its commit; nothing is fatal without
    such a race, and the release callback acts at most once.
  */
  lemma ExactlyOneRelease(states: seq<System>, steps: seq<Step>, n: nat, t: TxId)
    requires Run(states, steps) && n < |states| && t in states[n].txs && HandedOut(states[n].txs[t])
    ensures var x, raced := states[n].txs[t], exists i :: 0 <= i < n && RacesAt(states, steps, i, t);
      x.releases == (if Holds(x) then 0 else 1) + (if raced then 1 else 0) && x.callbacks <= 1
    ensures states[n].fatal ==> exists u :: u in states[n].txs && states[n].txs[u].raced
  {
    RunKeepsSystemInv(states, steps, n);
    assert TxOk(states[n], t);
    RacedExactly(states, steps, n, t);
    if states[n].fatal {
      var u :| u in Having(states[n].txs, Raced);
    }
  }

  /**
    started - completed - aborted counts the transactions still open and the begins that failed, short of
    one for each race: that transaction is counted as aborted and again by its commit.
  */
  lemma ActiveCount(states: seq<System>, steps: seq<Step>, n: nat)
    requires Run(states, steps) && n < |states|
    ensures states[n].started - states[n].completed - states[n].aborted
         == |Having(states[n].txs, Uncounted)| + states[n].lostBegins - |Having(states[n].txs, Raced)|
  {
    RunKeepsSystemInv(states, steps, n);
  }

  /** Unless some commit was raced, a serialized transaction that holds the isolation lock is alone. */
  lemma SerializedIsAlone(s: System, t: TxId, u: TxId)
    requires SystemInv(s) && t in s.txs && u in s.txs && t != u && |Having(s.txs, Raced)| == 0
    requires s.txs[t].mode == Serialized && Holds(s.txs[t])
    ensures !Holds(s.txs[u])
  {
    HolderIsCounted(s, t);
    var holders := Having(s.txs, HoldsExclusive);
    CountWithout(holders, t);
    assert t in holders && holders - {t} == {};
    assert u in Having(s.txs, HoldsShared) || u in holders - {t} || !Holds(s.txs[u]);
  }
}
