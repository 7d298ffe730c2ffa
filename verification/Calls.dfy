/**
  What the calls of a transaction achieve: Begin opens it, Put and Delete reach its buffer, Commit puts the
  buffer into storage, Rollback drops it. Each result gives the steps of the call, in every state that admits
  them, and the whole state they lead to.
*/
module Calls {
  import opened Options
  import opened LockTable
  import opened Transactions
  import Buffer

  // --- sequences of steps ------------------------------------------------------------------------------

  lemma {:induction false} PathSnoc(states: seq<System>, steps: seq<Transactions.Step>, step: Transactions.Step)
    returns (states': seq<System>, steps': seq<Transactions.Step>)
    requires Path(states, steps) && Enabled(states[|steps|], step)
    ensures steps' == steps + [step] && states' == states + [Do(states[|steps|], step)] && Path(states', steps')
  {
    states', steps' := states + [Do(states[|steps|], step)], steps + [step];
    forall i | 0 <= i < |steps'| ensures StepAt(states', steps', i) {
      if i < |steps| {
        assert StepAt(states, steps, i);
      }
    }
  }

  lemma {:induction false} PathAppend(states: seq<System>, steps: seq<Transactions.Step>,
                                      more: seq<System>, moreSteps: seq<Transactions.Step>)
    returns (states': seq<System>, steps': seq<Transactions.Step>)
    requires Path(states, steps) && Path(more, moreSteps) && more[0] == states[|steps|]
    ensures steps' == steps + moreSteps && states' == states + more[1..] && Path(states', steps')
    ensures states'[|steps'|] == more[|moreSteps|]
  {
    states', steps' := states + more[1..], steps + moreSteps;
    forall i | 0 <= i < |steps'| ensures StepAt(states', steps', i) {
      if i < |steps| {
        assert StepAt(states, steps, i);
      } else {
        assert StepAt(more, moreSteps, i - |steps|);
      }
    }
  }

  // --- Begin ---------------------------------------------------------------------------------------------

  /** A transaction right after BeginTransaction. */
  function Opened(mode: Mode): Tx { Tx(mode, true, map[], Idle, 0, {}, 0, 0, false, false) }

  const FRESH := Opened(ReadCommitted)

  /** What a begin leads to: one more open transaction, which holds the isolation lock. */
  function AfterBegin(s: System, t: TxId, mode: Mode): System {
    s.(txs := s.txs[t := Opened(mode)], started := s.started + 1,
       readers := if mode == Serialized then s.readers else s.readers + 1,
       writer := mode == Serialized || s.writer,
       table := if mode == ReadCommitted then s.table.(registered := s.table.registered + {t}) else s.table)
  }

  /** A begin succeeds as soon as no serialized transaction, or for a serialized one nobody, holds the lock. */
  lemma BeginOpens(s: System, t: TxId, mode: Mode) returns (states: seq<System>, steps: seq<Transactions.Step>)
    requires !s.fatal && t !in s.txs && t != NO_TX && mode != UnknownMode
    requires !s.writer && (mode == Serialized ==> s.readers == 0)
    ensures Path(states, steps) && states[0] == s && states[|steps|] == AfterBegin(s, t, mode)
    ensures forall i :: 0 <= i < |steps| ==> !steps[i].GiveUp?
  {
    states, steps := PathSnoc([s], [], Begin(t, mode));
    SetTwice(s, t, Opened(mode).(phase := Beginning), Opened(mode));
    SetTwice(s, t, Opened(mode).(phase := Beginning), Opened(mode).(phase := Registering));
    SetTwice(s, t, Opened(mode).(phase := Registering), Opened(mode));
    states, steps := PathSnoc(states, steps, LockIsolation(t));
    if mode == ReadCommitted {
      states, steps := PathSnoc(states, steps, RegisterTx(t));
    }
  }

  // --- Put and Delete --------------------------------------------------------------------------------------

  /** An open transaction between two calls. */
  predicate Open(s: System, t: TxId) {
    !s.fatal && t in s.txs && s.txs[t].active && s.txs[t].phase.Idle?
  }

  /** The lock manager lets `t` have the key: `t` is registered and no victim, and nobody else owns the key. */
  predicate MayLock(table: Table, t: TxId, key: Key) {
    t in table.registered && t !in table.victims && (key in table.owner ==> table.owner[key] == t)
  }

  predicate MayWrite(s: System, t: TxId, key: Key) {
    Open(s, t) &&
    (s.txs[t].mode == Serialized || (s.txs[t].mode == ReadCommitted && MayLock(s.table, t, key)))
  }

  /** The state with the write in the buffer and, for a read-committed transaction, the key locked. */
  function Written(s: System, t: TxId, key: Key, write: Option<Value>): System
    requires t in s.txs
  {
    var x := s.txs[t];
    var buffer := x.buffer[key := write];
    if x.mode == Serialized then s.(txs := s.txs[t := x.(buffer := buffer)])
    else s.(txs := s.txs[t := x.(buffer := buffer, gaveUp := x.gaveUp - {key})],
            table := s.table.(owner := s.table.owner[key := t], awaiting := s.table.awaiting - {t}))
  }

  /** A Put or Delete is refused exactly when the transaction is closed or may not write; otherwise it starts. */
  lemma WriteIsRefused(s: System, t: TxId, key: Key, write: Option<Value>)
    requires Enabled(s, Write(t, key, write))
    ensures Do(s, Write(t, key, write)) == s <==>
      !s.txs[t].active || s.txs[t].mode == ReadOnly || s.txs[t].mode == UnknownMode
  {
    var s' := Do(s, Write(t, key, write));
    if s' == s {
      assert s'.txs[t].phase == s.txs[t].phase;
    }
  }

  /** One lock attempt, case by case. */
  lemma AttemptDecides(s: System, t: TxId)
    requires Enabled(s, AttemptLock(t))
    ensures var x, s' := s.txs[t], Do(s, AttemptLock(t));
      var key := x.phase.key;
      && t in s'.txs
      && (if MayLock(s.table, t, key) then
            s'.txs[t].phase == Buffering(key, x.phase.write) && Owns(s'.table, t, key) && key !in s'.txs[t].gaveUp
          else if t in s.table.registered && t !in s.table.victims then
            s'.txs[t].phase == Acquiring(key, x.phase.write, true) && s'.table.owner == s.table.owner
            && s'.table.awaiting == s.table.awaiting[t := key]
          else s'.txs[t].phase == Failing && s'.table == s.table)
  {
  }

  /** A Put or Delete of a key that nobody else owns reaches the buffer, as does a second one to the same key. */
  lemma WriteIsBuffered(s: System, t: TxId, key: Key, write: Option<Value>)
    returns (states: seq<System>, steps: seq<Transactions.Step>)
    requires MayWrite(s, t, key)
    ensures Path(states, steps) && states[0] == s && states[|steps|] == Written(s, t, key, write)
    ensures steps == if s.txs[t].mode == Serialized then [Write(t, key, write), BufferWrite(t)]
      else [Write(t, key, write), AttemptLock(t), BufferWrite(t)]
  {
    var x := s.txs[t];
    states, steps := PathSnoc([s], [], Write(t, key, write));
    if x.mode == Serialized {
      SetTwice(s, t, x.(phase := Buffering(key, write)), x.(buffer := x.buffer[key := write]));
    } else {
      states, steps := LockForWrite(s, t, key, write);
    }
    states, steps := PathSnoc(states, steps, BufferWrite(t));
  }

  lemma LockForWrite(s: System, t: TxId, key: Key, write: Option<Value>)
    returns (states: seq<System>, steps: seq<Transactions.Step>)
    requires MayWrite(s, t, key) && s.txs[t].mode == ReadCommitted
    ensures Path(states, steps) && states[0] == s && steps == [Write(t, key, write), AttemptLock(t)]
    ensures var x := s.txs[t];
      states[2] == Set(
        s.(table := s.table.(owner := s.table.owner[key := t], awaiting := s.table.awaiting - {t})), t,
        x.(phase := Buffering(key, write), gaveUp := x.gaveUp - {key}))
  {
    states, steps := PathSnoc([s], [], Write(t, key, write));
    states, steps := PathSnoc(states, steps, AttemptLock(t));
  }

  /** Any number of writes to keys that nobody else owns: the buffer has the last one to each key. */
  lemma {:induction false} WritesAreBuffered(s: System, t: TxId, ops: seq<Buffer.Operation>)
    returns (states: seq<System>, steps: seq<Transactions.Step>)
    requires Open(s, t) && forall op :: op in ops ==> MayWrite(s, t, op.key)
    ensures Path(states, steps) && states[0] == s
    ensures var s' := states[|steps|];
      && Open(s', t) && s'.txs[t].mode == s.txs[t].mode && s'.storage == s.storage
      && s'.txs[t].buffer == s.txs[t].buffer + Buffer.WritesOf(ops)
      && forall key :: MayWrite(s, t, key) ==> MayWrite(s', t, key)
  {
    if ops == [] {
      states, steps := [s], [];
      assert s.txs[t].buffer + map[] == s.txs[t].buffer;
    } else {
      var n := |ops| - 1;
      states, steps := WritesAreBuffered(s, t, ops[..n]);
      var s1, op := states[|steps|], ops[n];
      assert op in ops;
      var more, moreSteps := WriteIsBuffered(s1, t, op.key, op.value);
      states, steps := PathAppend(states, steps, more, moreSteps);
      assert s1.txs[t].buffer[op.key := op.value] == s.txs[t].buffer + Buffer.WritesOf(ops);
    }
  }

  // --- Commit ------------------------------------------------------------------------------------------------

  function Lookup(storage: map<Key, Value>, key: Key): Option<Value> {
    if key in storage then Some(storage[key]) else None
  }

  lemma LookupOverlay(storage: map<Key, Value>, writes: Writes, key: Key)
    ensures Lookup(Overlay(storage, writes), key) == if key in writes then writes[key] else Lookup(storage, key)
  {
  }

  /** From an open transaction that may write to one that is about to apply its batch. */
  lemma ReachesCommit(s: System, t: TxId) returns (states: seq<System>, steps: seq<Transactions.Step>)
    requires Open(s, t) && (s.txs[t].mode == ReadCommitted || s.txs[t].mode == Serialized)
    ensures Path(states, steps) && states[0] == s && steps == [Commit(t), CloseForCommit(t)]
    ensures states[|steps|] == Set(s, t, s.txs[t].(active := false, phase := Committing))
  {
    states, steps := PathSnoc([s], [], Commit(t));
    states, steps := PathSnoc(states, steps, CloseForCommit(t));
    SetTwice(s, t, s.txs[t].(phase := Deciding), s.txs[t].(active := false, phase := Committing));
  }

  /** What Apply does: to storage what it is told, and to exactly one counter. */
  lemma ApplyDoes(s: System, t: TxId, ok: bool, applied: bool)
    requires Enabled(s, Apply(t, ok, applied))
    ensures var x, s' := s.txs[t], Do(s, Apply(t, ok, applied));
      && (forall key :: Lookup(s'.storage, key) ==
            if applied && key in x.buffer then x.buffer[key] else Lookup(s.storage, key))
      && (if ok || x.buffer == map[] then s'.completed == s.completed + 1 && s'.aborted == s.aborted
          else s'.aborted == s.aborted + 1 && s'.completed == s.completed)
      && s'.table == s.table && s'.readers == s.readers && s'.writer == s.writer && !s'.fatal
      && s'.txs == s.txs[t := x.(phase := if x.mode == ReadCommitted then Applied else Unlocking)]
  {
    var x := s.txs[t];
    forall key ensures Lookup(Overlay(s.storage, x.buffer), key) ==
      if key in x.buffer then x.buffer[key] else Lookup(s.storage, key)
    {
      LookupOverlay(s.storage, x.buffer, key);
    }
  }

  /** A commit that the store accepts puts exactly the buffer into storage, and counts as completed. */
  lemma CommitApplies(s: System, t: TxId) returns (states: seq<System>, steps: seq<Transactions.Step>)
    requires Open(s, t) && (s.txs[t].mode == ReadCommitted || s.txs[t].mode == Serialized)
    ensures Path(states, steps) && states[0] == s && steps == [Commit(t), CloseForCommit(t), Apply(t, true, true)]
    ensures var x, s' := s.txs[t], states[3];
      && s'.storage == Overlay(s.storage, x.buffer)
      && (forall key :: Lookup(s'.storage, key) == if key in x.buffer then x.buffer[key] else Lookup(s.storage, key))
      && s'.completed == s.completed + 1 && s'.aborted == s.aborted
      && s'.table == s.table && s'.readers == s.readers && s'.writer == s.writer && !s'.fatal
      && s'.txs == s.txs[t := x.(active := false, phase := if x.mode == ReadCommitted then Applied else Unlocking)]
  {
    states, steps := ReachesCommit(s, t);
    var x, s2 := s.txs[t], states[2];
    ApplyDoes(s2, t, true, true);
    states, steps := PathSnoc(states, steps, Apply(t, true, true));
    assert x.buffer == map[] ==> Overlay(s.storage, x.buffer) == s.storage;
    assert s.txs[t := s2.txs[t]][t := states[3].txs[t]] == s.txs[t := states[3].txs[t]];
  }

  /** The key locks of a transaction are gone. */
  ghost predicate Unlocked(table: Table, table': Table, t: TxId) {
    && table'.registered == table.registered - {t}
    && (forall key :: key in table'.owner <==> key in table.owner && table.owner[key] != t)
    && (forall key :: key in table'.owner ==> table'.owner[key] == table.owner[key])
  }

  /** The transaction is over: closed, its hold given back once, the others and storage as they were. */
  ghost predicate Over(s: System, s': System, t: TxId)
    requires t in s.txs
  {
    && t in s'.txs && !s'.txs[t].active && s'.txs[t].phase.Idle? && !Holds(s'.txs[t])
    && s'.txs == s.txs[t := s'.txs[t]] && !s'.fatal
    && (if s.txs[t].mode == Serialized then s.writer && !s'.writer && s'.readers == s.readers
        else s'.readers == s.readers - 1 && s'.writer == s.writer)
    && Unlocked(s.table, s'.table, t)
  }

  /** A holder of the isolation lock shows in its state when no commit was raced. */
  lemma HoldShows(s: System, t: TxId)
    requires SystemInv(s) && !s.fatal && t in s.txs && Holds(s.txs[t]) && |Having(s.txs, Raced)| == 0
    ensures if s.txs[t].mode == Serialized then s.writer else s.readers > 0
  {
    HolderIsCounted(s, t);
  }

  lemma ReleasedUnlocks(table: Table, t: TxId)
    requires Inv(table)
    ensures Unlocked(table, Release(table, t), t)
  {
  }

  /** What is counted and stored is the same in both states. */
  predicate SameRecords(s: System, s': System, completed: nat, aborted: nat) {
    && s'.storage == s.storage && s'.completed == s.completed + completed && s'.aborted == s.aborted + aborted
    && s'.started == s.started && s'.lostBegins == s.lostBegins
  }

  lemma LeftIsOver(s: System, t: TxId, y: Tx, table: Table, completed: nat, aborted: nat)
    requires !s.fatal && t in s.txs && y.mode == s.txs[t].mode && !y.active && y.phase.Idle?
    requires if y.mode == Serialized then s.writer else s.readers > 0
    requires Unlocked(s.table, table, t)
    ensures var s' := Left(s, t, y, table, completed, aborted);
      Over(s, s', t) && SameRecords(s, s', completed, aborted) && s'.txs[t] == y
  {
  }

  /** After the batch: the key locks and then the isolation lock are given back. */
  lemma CommitLeavesLocks(s: System, t: TxId) returns (states: seq<System>, steps: seq<Transactions.Step>)
    requires !s.fatal && Inv(s.table) && t in s.txs && !s.txs[t].active
    requires if s.txs[t].mode == ReadCommitted then s.txs[t].phase.Applied?
      else s.txs[t].mode == Serialized && s.txs[t].phase.Unlocking? && t !in s.table.registered
    requires if s.txs[t].mode == Serialized then s.writer else s.readers > 0
    ensures Path(states, steps) && states[0] == s
    ensures Over(s, states[|steps|], t) && SameRecords(s, states[|steps|], 0, 0)
  {
    var x := s.txs[t];
    var y := x.(phase := Idle, releases := x.releases + 1);
    if x.mode == ReadCommitted {
      var table := Release(s.table, t);
      states, steps := PathSnoc([s], [], ReleaseCommitted(t));
      var s1 := Set(s.(table := table), t, x.(phase := Unlocking));
      assert states[1] == s1 by { ReleaseInactive(s, t); }
      states, steps := PathSnoc(states, steps, UnlockIsolation(t));
      UnlockThenIdleShape(s1, t);
      SetTwice(s.(table := table), t, x.(phase := Unlocking), y);
      ReleasedUnlocks(s.table, t);
      LeftIsOver(s, t, y, table, 0, 0);
    } else {
      states, steps := PathSnoc([s], [], UnlockIsolation(t));
      UnlockThenIdleShape(s, t);
      ReleasedUnlocks(s.table, t);
      LeftIsOver(s, t, y, s.table, 0, 0);
    }
  }

  lemma ReleaseInactive(s: System, t: TxId)
    requires t in s.txs && !s.txs[t].active
    ensures ReleaseKeys(s, t) == s.(table := Release(s.table, t))
  {
    if t in s.table.registered {
      ReleaseKeysShape(s, t);
    }
  }

  /** A commit that the store accepts: the buffer is in storage, all is given back, and it counts as completed. */
  lemma CommitCompletes(s: System, t: TxId) returns (states: seq<System>, steps: seq<Transactions.Step>)
    requires SystemInv(s) && |Having(s.txs, Raced)| == 0
    requires Open(s, t) && (s.txs[t].mode == ReadCommitted || s.txs[t].mode == Serialized)
    ensures Path(states, steps) && states[0] == s
    ensures var s' := states[|steps|];
      && Over(s, s', t) && s'.storage == Overlay(s.storage, s.txs[t].buffer)
      && s'.completed == s.completed + 1 && s'.aborted == s.aborted
  {
    assert TxOk(s, t);
    HoldShows(s, t);
    states, steps := CommitApplies(s, t);
    var s3 := states[3];
    var more, moreSteps := CommitLeavesLocks(s3, t);
    states, steps := PathAppend(states, steps, more, moreSteps);
    assert s.txs[t := s3.txs[t]][t := states[|steps|].txs[t]] == s.txs[t := states[|steps|].txs[t]];
  }

  /** A read-only commit gives its hold back, changes nothing and counts as completed. */
  lemma ReadOnlyCommits(s: System, t: TxId) returns (states: seq<System>, steps: seq<Transactions.Step>)
    requires SystemInv(s) && |Having(s.txs, Raced)| == 0 && Open(s, t) && s.txs[t].mode == ReadOnly
    ensures Path(states, steps) && states[0] == s && steps == [Commit(t), CloseForCommit(t)]
    ensures Over(s, states[2], t) && SameRecords(s, states[2], 1, 0)
  {
    var x := s.txs[t];
    var y := x.(active := false, releases := x.releases + 1);
    assert TxOk(s, t);
    HoldShows(s, t);
    states, steps := PathSnoc([s], [], Commit(t));
    states, steps := PathSnoc(states, steps, CloseForCommit(t));
    SetTwice(s, t, x.(phase := Deciding), x.(active := false));
    UnlockIsLeft(s, t, x.(active := false), s.table, 1, 0);
    ReleasedUnlocks(s.table, t);
    LeftIsOver(s, t, y, s.table, 1, 0);
  }

  /**
    Atomic effect of a whole transaction: after any writes to keys that nobody else owns, and a commit that
    the store accepts, storage is what making those writes one after the other gives.
  */
  lemma TransactionTakesEffect(s: System, t: TxId, ops: seq<Buffer.Operation>)
    returns (states: seq<System>, steps: seq<Transactions.Step>)
    requires Open(s, t) && s.txs[t].buffer == map[] && (s.txs[t].mode == ReadCommitted || s.txs[t].mode == Serialized)
    requires forall op :: op in ops ==> MayWrite(s, t, op.key)
    ensures Path(states, steps) && states[0] == s
    ensures states[|steps|].storage == Buffer.InOrder(s.storage, ops)
  {
    states, steps := WritesAreBuffered(s, t, ops);
    assert map[] + Buffer.WritesOf(ops) == Buffer.WritesOf(ops);
    var more, moreSteps := CommitApplies(states[|steps|], t);
    states, steps := PathAppend(states, steps, more, moreSteps);
    Buffer.OverlayIsInOrder(s.storage, ops);
  }

  // --- Rollback --------------------------------------------------------------------------------------------------

  /** Rollback drops the buffer, gives everything back, leaves storage alone and counts as aborted. */
  lemma RollbackDiscards(s: System, t: TxId) returns (states: seq<System>, steps: seq<Transactions.Step>)
    requires SystemInv(s) && |Having(s.txs, Raced)| == 0 && Open(s, t)
    ensures Path(states, steps) && states[0] == s && steps == [RollbackRelease(t, false), RollbackFinish(t)]
    ensures Over(s, states[2], t) && states[2].txs[t].buffer == map[] && SameRecords(s, states[2], 0, 1)
  {
    var x := s.txs[t];
    assert TxOk(s, t);
    HoldShows(s, t);
    if x.mode == ReadCommitted {
      states, steps := RollbackByCallback(s, t);
    } else {
      states, steps := RollbackLate(s, t);
    }
  }

  lemma RollbackByCallback(s: System, t: TxId) returns (states: seq<System>, steps: seq<Transactions.Step>)
    requires Inv(s.table) && Open(s, t) && s.txs[t].mode == ReadCommitted && t in s.table.registered && s.readers > 0
    ensures Path(states, steps) && states[0] == s && steps == [RollbackRelease(t, false), RollbackFinish(t)]
    ensures Over(s, states[2], t) && states[2].txs[t].buffer == map[] && SameRecords(s, states[2], 0, 1)
  {
    var x, table := s.txs[t], Release(s.table, t);
    var y := Released(x);
    var z := y.(pendingRollbacks := x.pendingRollbacks + 1);
    ReleaseKeysShape(s, t);
    SetAfterLeft(s, t, y, table, 0, 1, z);
    states, steps := PathSnoc([s], [], RollbackRelease(t, false));
    var s1 := Left(s, t, z, table, 0, 1);
    assert states[1] == s1;
    ReleasedUnlocks(s.table, t);
    LeftIsOver(s, t, z, table, 0, 1);
    states, steps := PathSnoc(states, steps, RollbackFinish(t));
    SetAfterLeft(s, t, z, table, 0, 1, y);
    assert states[2] == Left(s, t, y, table, 0, 1);
    LeftIsOver(s, t, y, table, 0, 1);
  }

  lemma RollbackLate(s: System, t: TxId) returns (states: seq<System>, steps: seq<Transactions.Step>)
    requires Inv(s.table) && Open(s, t) && (s.txs[t].mode == ReadOnly || s.txs[t].mode == Serialized)
    requires t !in s.table.registered && if s.txs[t].mode == Serialized then s.writer else s.readers > 0
    ensures Path(states, steps) && states[0] == s && steps == [RollbackRelease(t, false), RollbackFinish(t)]
    ensures Over(s, states[2], t) && states[2].txs[t].buffer == map[] && SameRecords(s, states[2], 0, 1)
  {
    var x := s.txs[t];
    var z := x.(pendingRollbacks := x.pendingRollbacks + 1);
    states, steps := PathSnoc([s], [], RollbackRelease(t, false));
    var s1 := Set(s, t, z);
    assert states[1] == s1;
    states, steps := PathSnoc(states, steps, RollbackFinish(t));
    EndRollbackShape(s1, t);
    SetTwice(s, t, z, RolledBack(x));
    ReleasedUnlocks(s.table, t);
    LeftIsOver(s, t, RolledBack(x), s.table, 0, 1);
  }

  /** A wait that failed closes the transaction in the same way. */
  lemma FailedWaitCloses(s: System, t: TxId) returns (states: seq<System>, steps: seq<Transactions.Step>)
    requires SystemInv(s) && |Having(s.txs, Raced)| == 0
    requires !s.fatal && t in s.txs && s.txs[t].active && s.txs[t].phase.Failing?
    ensures Path(states, steps) && states[0] == s && steps == [ReleaseFailed(t), CloseFailed(t)]
    ensures Over(s, states[2], t) && states[2].txs[t].buffer == map[] && SameRecords(s, states[2], 0, 1)
  {
    assert TxOk(s, t);
    HoldShows(s, t);
    var x, table := s.txs[t], Release(s.table, t);
    var y := Released(x);
    ReleaseKeysShape(s, t);
    SetAfterLeft(s, t, y, table, 0, 1, y.(phase := Closing));
    states, steps := PathSnoc([s], [], ReleaseFailed(t));
    assert states[1] == Left(s, t, y.(phase := Closing), table, 0, 1);
    states, steps := PathSnoc(states, steps, CloseFailed(t));
    SetAfterLeft(s, t, y.(phase := Closing), table, 0, 1, y.(phase := Idle));
    ReleasedUnlocks(s.table, t);
    LeftIsOver(s, t, y.(phase := Idle), table, 0, 1);
  }
}
