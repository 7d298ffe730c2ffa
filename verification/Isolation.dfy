/**
  What keeps the writes of concurrent transactions apart, and exactly which steps break it: an exhausted
  lock wait, and a Rollback that hits a commit before its batch is applied.
*/
module Isolation {
  import opened Options
  import opened LockTable
  import opened Transactions
  import opened Calls

  // --- runs in which nothing goes wrong -----------------------------------------------------------

  /** Neither an exhausted wait nor a Rollback that hits an unfinished commit. */
  ghost predicate Harmless(s: System, step: Transactions.Step) {
    !step.GiveUp? && !Interrupts(s, step)
  }

  ghost predicate CleanTx(s: System, t: TxId)
    requires t in s.txs
  {
    s.txs[t].gaveUp == {} && !s.txs[t].raced && !s.txs[t].exposed
  }

  ghost predicate Clean(s: System) {
    forall t {:trigger CleanTx(s, t)} :: t in s.txs ==> CleanTx(s, t)
  }

  lemma StepKeepsClean(s: System, step: Transactions.Step)
    requires SystemInv(s) && Clean(s) && Enabled(s, step) && Harmless(s, step)
    ensures Clean(Do(s, step))
  {
    forall t | t in Do(s, step).txs ensures CleanTx(Do(s, step), t) {
      if t in s.txs {
        assert CleanTx(s, t);
        StepFrame(s, step, t);
      } else {
        NewTxs(s, step, t);
      }
    }
  }

  ghost predicate HarmlessAt(states: seq<System>, steps: seq<Transactions.Step>, i: nat)
    requires i < |steps| < |states|
  {
    Harmless(states[i], steps[i])
  }

  /** The first `n` steps are harmless. */
  ghost predicate HarmlessRun(states: seq<System>, steps: seq<Transactions.Step>, n: nat) {
    n <= |steps| < |states| && forall i :: 0 <= i < n ==> HarmlessAt(states, steps, i)
  }

  lemma {:induction false} RunStaysClean(states: seq<System>, steps: seq<Transactions.Step>, n: nat)
    requires Transactions.Run(states, steps) && HarmlessRun(states, steps, n)
    ensures Clean(states[n])
  {
    if n > 0 {
      RunStaysClean(states, steps, n - 1);
      RunKeepsSystemInv(states, steps, n - 1);
      assert StepAt(states, steps, n - 1) && HarmlessAt(states, steps, n - 1);
      StepKeepsClean(states[n - 1], steps[n - 1]);
    }
  }

  lemma NobodyRaced(s: System)
    requires Clean(s)
    ensures |Having(s.txs, Raced)| == 0
  {
    forall t | t in s.txs ensures t !in Having(s.txs, Raced) {
      assert CleanTx(s, t);
    }
    assert Having(s.txs, Raced) == {};
  }

  // --- isolation ------------------------------------------------------------------------------------

  /** `t` is a read-committed transaction with a buffered write to `key` that has not been applied or dropped. */
  predicate Wrote(s: System, t: TxId, key: Key) {
    t in s.txs && s.txs[t].mode == ReadCommitted && Uncounted(s.txs[t]) && key in s.txs[t].buffer
  }

  /** The transaction may have the key in its buffer without owning it. */
  predicate Unguarded(x: Tx, key: Key) { key in x.gaveUp || x.raced || x.exposed }

  /** Two transactions have pending writes to one key only if one of them may have it without owning it. */
  lemma BuffersAreDisjoint(s: System, t: TxId, u: TxId, key: Key)
    requires SystemInv(s) && t != u && Wrote(s, t, key) && Wrote(s, u, key)
    ensures Unguarded(s.txs[t], key) || Unguarded(s.txs[u], key)
  {
    assert TxOk(s, t) && TxOk(s, u);
  }

  /** Another transaction's batch does not reach a key with a pending write. */
  lemma OthersBatchMisses(s: System, t: TxId, u: TxId, key: Key)
    requires SystemInv(s) && Clean(s) && Wrote(s, t, key) && u in s.txs && u != t && s.txs[u].phase.Committing?
    ensures key !in s.txs[u].buffer
  {
    assert TxOk(s, t) && TxOk(s, u) && CleanTx(s, t) && CleanTx(s, u);
    if s.txs[u].mode == Serialized {
      NobodyRaced(s);
      SerializedIsAlone(s, u, t);
    }
  }

  /**
    While the write is pending, no step but the application of its own batch changes what storage holds
    for its key, and the pending value is only replaced by its own transaction.
  */
  lemma PendingWriteGuardsKey(s: System, step: Transactions.Step, t: TxId, key: Key)
    requires SystemInv(s) && Clean(s) && Enabled(s, step) && Harmless(s, step) && Wrote(s, t, key)
    ensures !(step.Apply? && step.tx == t) ==> Lookup(Do(s, step).storage, key) == Lookup(s.storage, key)
    ensures t in Do(s, step).txs && (Uncounted(Do(s, step).txs[t]) ==> Wrote(Do(s, step), t, key))
    ensures step != BufferWrite(t) && Uncounted(Do(s, step).txs[t]) ==>
      Do(s, step).txs[t].buffer[key] == s.txs[t].buffer[key]
  {
    assert CleanTx(s, t);
    StepFrame(s, step, t);
    if step.Apply? && step.tx != t {
      OthersBatchMisses(s, t, step.tx, key);
    }
  }

  lemma AppliedIsCounted(s: System, step: Transactions.Step)
    requires SystemInv(s) && Enabled(s, step)
    ensures step.Apply? ==> !Uncounted(Do(s, step).txs[step.tx])
  {
    if step.Apply? {
      assert TxOk(s, step.tx);
      ApplyShape(s, step.tx, step.ok, step.applied);
    }
  }

  lemma RunGuardsKey(states: seq<System>, steps: seq<Transactions.Step>, i: nat, t: TxId, key: Key)
    requires Transactions.Run(states, steps) && i < |steps| && Wrote(states[i], t, key)
    requires HarmlessRun(states, steps, i + 1)
    requires t in states[i + 1].txs && Uncounted(states[i + 1].txs[t])
    ensures Lookup(states[i + 1].storage, key) == Lookup(states[i].storage, key)
    ensures Wrote(states[i + 1], t, key)
  {
    RunKeepsSystemInv(states, steps, i);
    RunStaysClean(states, steps, i);
    assert StepAt(states, steps, i) && HarmlessAt(states, steps, i);
    PendingWriteGuardsKey(states[i], steps[i], t, key);
    AppliedIsCounted(states[i], steps[i]);
  }

  lemma {:induction false} ExistsThrough(states: seq<System>, steps: seq<Transactions.Step>, m: nat, n: nat, t: TxId)
    requires Transactions.Run(states, steps) && m <= n < |states| && t in states[m].txs
    ensures t in states[n].txs
    decreases n
  {
    if m < n {
      ExistsThrough(states, steps, m, n - 1, t);
      RunFrame(states, steps, n - 1, t);
    }
  }

  /** Before a transaction is uncounted and clean it was so all along. */
  lemma WasUncounted(states: seq<System>, steps: seq<Transactions.Step>, i: nat, t: TxId)
    requires Transactions.Run(states, steps) && i < |steps| && HarmlessRun(states, steps, i + 1)
    requires t in states[i].txs && t in states[i + 1].txs && Uncounted(states[i + 1].txs[t])
    ensures Uncounted(states[i].txs[t])
  {
    RunFrame(states, steps, i, t);
    RunStaysClean(states, steps, i + 1);
    assert CleanTx(states[i + 1], t);
  }

  /**
    Strict two-phase writes: in an interleaving of harmless steps, from the moment a read-committed
    transaction buffers a write until its batch is applied or it rolls back it owns the key, and nobody
    else's write to the key reaches storage.
  */
  lemma {:induction false} WritesAreIsolated(states: seq<System>, steps: seq<Transactions.Step>, m: nat, n: nat,
      t: TxId, key: Key)
    requires Transactions.Run(states, steps) && m <= n && HarmlessRun(states, steps, n)
    requires Wrote(states[m], t, key) && t in states[n].txs && Uncounted(states[n].txs[t])
    ensures Wrote(states[n], t, key)
    ensures Owns(states[n].table, t, key)
    ensures Lookup(states[n].storage, key) == Lookup(states[m].storage, key)
    decreases n
  {
    if m < n {
      assert HarmlessRun(states, steps, n - 1);
      ExistsThrough(states, steps, m, n - 1, t);
      WasUncounted(states, steps, n - 1, t);
      WritesAreIsolated(states, steps, m, n - 1, t, key);
      RunGuardsKey(states, steps, n - 1, t, key);
    }
    RunKeepsSystemInv(states, steps, n);
    RunStaysClean(states, steps, n);
    assert TxOk(states[n], t) && CleanTx(states[n], t);
  }

  // --- every exhausted wait on a pending key breaks it ------------------------------------------------

  /**
    When an open transaction gives up its wait, its write goes on to the buffer all the same; another
    transaction shares the key afterwards if and only if it had a pending write to it before.
  */
  lemma GiveUpShares(s: System, t: TxId, u: TxId)
    requires SystemInv(s) && Enabled(s, GiveUp(t)) && s.txs[t].active && u != t
    ensures Enabled(Do(s, GiveUp(t)), BufferWrite(t))
    ensures var key, s2 := s.txs[t].phase.key, Do(Do(s, GiveUp(t)), BufferWrite(t));
      Wrote(s2, t, key) && (Wrote(s2, u, key) <==> Wrote(s, u, key))
  {
    assert TxOk(s, t);
  }

  /** A committing transaction applies its write to the key, whatever others have pending. */
  lemma ApplyReaches(s: System, t: TxId, u: TxId, key: Key)
    requires !s.fatal && t in s.txs && s.txs[t].phase.Committing? && key in s.txs[t].buffer && u != t
    ensures Enabled(s, Apply(t, true, true))
    ensures var s' := Do(s, Apply(t, true, true));
      Lookup(s'.storage, key) == s.txs[t].buffer[key] && (Wrote(s', u, key) <==> Wrote(s, u, key))
  {
    ApplyDoes(s, t, true, true);
  }

  /** The write of a given-up wait on its way to storage. */
  lemma GiveUpPath(s: System, t: TxId) returns (states: seq<System>, steps: seq<Transactions.Step>)
    requires SystemInv(s) && Enabled(s, GiveUp(t)) && s.txs[t].active
    ensures Path(states, steps) && states[0] == s && |steps| > 0 && steps[0] == GiveUp(t)
    ensures var x, s' := s.txs[t], states[|steps|];
      && !s'.fatal && t in s'.txs && s'.txs[t].phase.Committing?
      && x.phase.key in s'.txs[t].buffer && s'.txs[t].buffer[x.phase.key] == x.phase.write
      && forall u :: u != t && u in s.txs ==> u in s'.txs && s'.txs[u] == s.txs[u]
  {
    var x := s.txs[t];
    assert TxOk(s, t);
    states, steps := PathSnoc([s], [], GiveUp(t));
    states, steps := PathSnoc(states, steps, BufferWrite(t));
    var more, moreSteps := ReachesCommit(states[2], t);
    states, steps := PathAppend(states, steps, more, moreSteps);
  }

  /**
    From any state in which an open transaction waits for a key with somebody's pending write, giving up
    the wait leads, by its own steps alone, to its write in storage under that pending write.
  */
  lemma GiveUpBreaksIsolation(s: System, t: TxId, u: TxId) returns (states: seq<System>, steps: seq<Transactions.Step>)
    requires SystemInv(s) && Enabled(s, GiveUp(t)) && s.txs[t].active
    requires u != t && Wrote(s, u, s.txs[t].phase.key)
    ensures Path(states, steps) && states[0] == s && |steps| > 0 && steps[0] == GiveUp(t)
    ensures var key, s' := s.txs[t].phase.key, states[|steps|];
      Wrote(s', u, key) && Lookup(s'.storage, key) == s.txs[t].phase.write
  {
    states, steps := GiveUpPath(s, t);
    ApplyReaches(states[|steps|], t, u, s.txs[t].phase.key);
    states, steps := PathSnoc(states, steps, Apply(t, true, true));
  }

  // --- so does every Rollback that hits a commit with a contended key ------------------------------------

  /** A waiter acquires a key that its owner released, and buffers its write. */
  lemma WaiterProceeds(s: System, u: TxId, key: Key) returns (states: seq<System>, steps: seq<Transactions.Step>)
    requires SystemInv(s) && !s.fatal && u in s.txs && s.txs[u].active && s.txs[u].phase.Acquiring?
    requires s.txs[u].phase.key == key && u !in s.table.victims && key !in s.table.owner
    ensures Path(states, steps) && states[0] == s && steps == [AttemptLock(u), BufferWrite(u)]
    ensures var s2 := states[2];
      && !s2.fatal && Wrote(s2, u, key) && s2.storage == s.storage
      && forall t :: t != u && t in s.txs ==> t in s2.txs && s2.txs[t] == s.txs[t]
  {
    assert TxOk(s, u);
    states, steps := PathSnoc([s], [], AttemptLock(u));
    assert states[1].txs[u].phase.Buffering? && states[1].txs[u].active;
    states, steps := PathSnoc(states, steps, BufferWrite(u));
  }

  lemma ReleaseFrees(s: System, t: TxId, key: Key)
    requires SystemInv(s) && !s.fatal && t in s.txs && s.txs[t].mode == ReadCommitted && s.txs[t].phase.Committing?
    requires key in s.txs[t].buffer && !Unguarded(s.txs[t], key)
    ensures Enabled(s, RollbackRelease(t, false)) && Interrupts(s, RollbackRelease(t, false))
    ensures var s' := Do(s, RollbackRelease(t, false));
      && s' == Set(s.(table := Release(s.table, t)), t, ExposedTx(s.txs[t]))
      && SystemInv(s') && key !in s'.table.owner
  {
    assert TxOk(s, t);
    ExposeKeeps(s, t, false);
  }

  /** A Rollback hits a commit, and the waiter buffers its write before the batch is applied. */
  lemma InterruptionPath(s: System, t: TxId, u: TxId, key: Key)
    returns (states: seq<System>, steps: seq<Transactions.Step>)
    requires SystemInv(s) && !s.fatal && t in s.txs && s.txs[t].mode == ReadCommitted && s.txs[t].phase.Committing?
    requires key in s.txs[t].buffer && !Unguarded(s.txs[t], key)
    requires u != t && u in s.txs && s.txs[u].active && s.txs[u].phase.Acquiring? && s.txs[u].phase.key == key
    requires u !in s.table.victims
    ensures Path(states, steps) && states[0] == s
    ensures steps == [RollbackRelease(t, false), AttemptLock(u), BufferWrite(u)]
    ensures var s' := states[3];
      && !s'.fatal && s'.storage == s.storage && Wrote(s', u, key)
      && t in s'.txs && s'.txs[t].phase.Committing? && s'.txs[t].buffer == s.txs[t].buffer
  {
    ReleaseFrees(s, t, key);
    states, steps := PathSnoc([s], [], RollbackRelease(t, false));
    var more, moreSteps := WaiterProceeds(states[1], u, key);
    states, steps := PathAppend(states, steps, more, moreSteps);
  }

  /**
    From any state in which a commit is about to apply its batch and somebody waits for one of its keys,
    a Rollback lets the waiter buffer its write first: the batch then reaches storage under it.
  */
  lemma InterruptionBreaksIsolation(s: System, t: TxId, u: TxId, key: Key)
    returns (states: seq<System>, steps: seq<Transactions.Step>)
    requires SystemInv(s) && !s.fatal && t in s.txs && s.txs[t].mode == ReadCommitted && s.txs[t].phase.Committing?
    requires key in s.txs[t].buffer && !Unguarded(s.txs[t], key)
    requires u != t && u in s.txs && s.txs[u].active && s.txs[u].phase.Acquiring? && s.txs[u].phase.key == key
    requires u !in s.table.victims
    ensures Path(states, steps) && states[0] == s
    ensures steps == [RollbackRelease(t, false), AttemptLock(u), BufferWrite(u), Apply(t, true, true)]
    ensures Wrote(states[3], u, key) && Wrote(states[4], u, key)
    ensures Lookup(states[3].storage, key) == Lookup(s.storage, key)
    ensures Lookup(states[4].storage, key) == s.txs[t].buffer[key]
  {
    states, steps := InterruptionPath(s, t, u, key);
    ApplyReaches(states[3], t, u, key);
    states, steps := PathSnoc(states, steps, Apply(t, true, true));
  }

  // --- and a Rollback that races with the commit gives the isolation lock back twice -------------------------

  /** A commit with nothing to apply, from its reset of `active` on. */
  lemma EmptyCommitApplies(s: System, t: TxId) returns (states: seq<System>, steps: seq<Transactions.Step>)
    requires !s.fatal && t in s.txs && s.txs[t].mode == ReadCommitted && s.txs[t].phase.Deciding? &&
      s.txs[t].buffer == map[]
    ensures Path(states, steps) && states[0] == s
    ensures states[|steps|] == Set(s.(completed := s.completed + 1), t, s.txs[t].(active := false, phase := Applied))
  {
    var x := s.txs[t].(active := false);
    states, steps := PathSnoc([s], [], CloseForCommit(t));
    states, steps := PathSnoc(states, steps, Apply(t, true, true));
    SetTwice(s, t, x.(phase := Committing), x.(phase := Applied));
  }

  /** The end of a commit whose key locks are gone already. */
  lemma CommitLeaves(s: System, t: TxId) returns (states: seq<System>, steps: seq<Transactions.Step>)
    requires !s.fatal && t in s.txs && s.txs[t].phase.Applied? && t !in s.table.registered
    ensures Path(states, steps) && states[0] == s
    ensures var x := s.txs[t];
      states[|steps|] == Left(s, t, x.(phase := Idle, releases := x.releases + 1), s.table, 0, 0)
  {
    var x := s.txs[t];
    states, steps := PathSnoc([s], [], ReleaseCommitted(t));
    var s1 := Set(s, t, x.(phase := Unlocking));
    assert states[1] == s1;
    states, steps := PathSnoc(states, steps, UnlockIsolation(t));
    UnlockThenIdleShape(s1, t);
    SetTwice(s, t, x.(phase := Unlocking), x.(phase := Idle, releases := x.releases + 1));
  }

  /** The rest of a raced commit with nothing to apply. */
  lemma RacedCommitEnds(s: System, t: TxId) returns (states: seq<System>, steps: seq<Transactions.Step>)
    requires !s.fatal && t in s.txs && s.txs[t].mode == ReadCommitted && s.txs[t].phase.Deciding? &&
      s.txs[t].buffer == map[]
    requires t !in s.table.registered
    ensures Path(states, steps) && states[0] == s
    ensures var x := s.txs[t];
      states[|steps|] == Left(s, t, x.(active := false, phase := Idle, releases := x.releases + 1), s.table, 1, 0)
  {
    var x := s.txs[t].(active := false);
    states, steps := EmptyCommitApplies(s, t);
    var more, moreSteps := CommitLeaves(states[|steps|], t);
    states, steps := PathAppend(states, steps, more, moreSteps);
    SetTwice(s.(completed := s.completed + 1), t, x.(phase := Applied), x.(phase := Idle, releases := x.releases + 1));
  }

  /**
    From any state in which nobody was raced, a Rollback between a commit's test of `active` and its reset
    makes that transaction give back its hold twice. The second time is fatal if nobody else holds the
    lock, and otherwise gives away another transaction's hold.
  */
  lemma RaceReleasesTwice(s: System, t: TxId) returns (states: seq<System>, steps: seq<Transactions.Step>)
    requires SystemInv(s) && !s.fatal && |Having(s.txs, Raced)| == 0
    requires t in s.txs && s.txs[t].mode == ReadCommitted && s.txs[t].phase.Deciding?
    ensures Path(states, steps) && states[0] == s && |steps| > 0 && steps[0] == RollbackRelease(t, false)
    ensures var s' := states[|steps|];
      && t in s'.txs && s'.txs[t].releases == 2 && !Holds(s'.txs[t])
      && (s'.fatal <==> s.readers == 1) && (!s'.fatal ==> s'.readers == s.readers - 2)
      && s'.writer == s.writer && s'.txs == s.txs[t := s'.txs[t]]
  {
    RaceHappens(s, t, false);
    states, steps := PathSnoc([s], [], RollbackRelease(t, false));
    var more, moreSteps := RacedCommitEnds(states[1], t);
    states, steps := PathAppend(states, steps, more, moreSteps);
  }

  /** The first half of a race: the Rollback gives back the hold that the commit will give back again. */
  lemma RaceHappens(s: System, t: TxId, kept: bool)
    requires SystemInv(s) && !s.fatal && |Having(s.txs, Raced)| == 0
    requires t in s.txs && s.txs[t].mode == ReadCommitted && s.txs[t].phase.Deciding?
    ensures Enabled(s, RollbackRelease(t, kept)) && s.readers > 0
    ensures var s', y := Do(s, RollbackRelease(t, kept)), RacedTx(s.txs[t], kept);
      && !s'.fatal && s'.readers == s.readers - 1 && s'.writer == s.writer && s'.txs == s.txs[t := y]
      && s'.table == Release(s.table, t) && t !in s'.table.registered && s'.storage == s.storage
      && y.releases == 1 && y.phase.Deciding? && y.mode == ReadCommitted && !s.txs[t].raced
  {
    assert t !in Having(s.txs, Raced) by { CountWithout(Having(s.txs, Raced), t); }
    assert TxOk(s, t);
    HolderIsCounted(s, t);
    RaceShape(s, t, kept);
  }

  /** With the count of readers at zero a serialized transaction starts, whoever else holds the lock. */
  lemma SerializedJoins(s: System, d: TxId) returns (states: seq<System>, steps: seq<Transactions.Step>)
    requires !s.fatal && s.readers == 0 && !s.writer && d !in s.txs && d != NO_TX
    ensures Path(states, steps) && states[0] == s
    ensures var s' := states[|steps|];
      && !s'.fatal && d in s'.txs && s'.txs[d] == Opened(Serialized)
      && forall u :: u in s.txs ==> u in s'.txs && s'.txs[u] == s.txs[u]
  {
    states, steps := BeginOpens(s, d, Serialized);
  }

  /** After a race beside one other holder, a serialized transaction runs beside that holder. */
  lemma RaceAdmitsSerialized(s: System, t: TxId, u: TxId, d: TxId)
    returns (states: seq<System>, steps: seq<Transactions.Step>)
    requires SystemInv(s) && !s.fatal && |Having(s.txs, Raced)| == 0 && s.readers == 2 && d !in s.txs && d != NO_TX
    requires t in s.txs && s.txs[t].mode == ReadCommitted && s.txs[t].phase.Deciding?
    requires u in s.txs && u != t && Holds(s.txs[u])
    ensures Path(states, steps) && states[0] == s
    ensures |steps| > 0 && steps[0] == RollbackRelease(t, false)
    ensures var s' := states[|steps|];
      && !s'.fatal && d in s'.txs && s'.txs[d] == Opened(Serialized) && Holds(s'.txs[d])
      && u in s'.txs && s'.txs[u] == s.txs[u] && Holds(s'.txs[u])
  {
    states, steps := RaceReleasesTwice(s, t);
    var more, moreSteps := SerializedJoins(states[|steps|], d);
    states, steps := PathAppend(states, steps, more, moreSteps);
  }

  // --- both break isolation ------------------------------------------------------------------------------------

  lemma RaceFrees(s: System, t: TxId, key: Key)
    requires SystemInv(s) && Enabled(s, RollbackRelease(t, true))
    requires s.txs[t].mode == ReadCommitted && s.txs[t].phase.Deciding? && !s.txs[t].raced
    requires key in s.txs[t].buffer && key !in s.txs[t].gaveUp
    ensures SystemInv(Do(s, RollbackRelease(t, true))) && key !in Release(s.table, t).owner
  {
    StepKeepsSystemInv(s, RollbackRelease(t, true));
    assert TxOk(s, t);
  }

  /** A Rollback races with a commit that has read its buffer, and the waiter buffers its write before the batch. */
  lemma RacePath(s: System, t: TxId, u: TxId, key: Key) returns (states: seq<System>, steps: seq<Transactions.Step>)
    requires SystemInv(s) && !s.fatal && |Having(s.txs, Raced)| == 0
    requires t in s.txs && s.txs[t].mode == ReadCommitted && s.txs[t].phase.Deciding?
    requires key in s.txs[t].buffer && key !in s.txs[t].gaveUp
    requires u != t && u in s.txs && s.txs[u].active && s.txs[u].phase.Acquiring? && s.txs[u].phase.key == key
    requires u !in s.table.victims
    ensures Path(states, steps) && states[0] == s
    ensures steps == [RollbackRelease(t, true), AttemptLock(u), BufferWrite(u)]
    ensures var s' := states[3];
      && !s'.fatal && s'.storage == s.storage && Wrote(s', u, key)
      && t in s'.txs && s'.txs[t] == RacedTx(s.txs[t], true) && s'.txs[t].phase.Deciding?
  {
    RaceHappens(s, t, true);
    RaceFrees(s, t, key);
    states, steps := PathSnoc([s], [], RollbackRelease(t, true));
    var more, moreSteps := WaiterProceeds(states[1], u, key);
    states, steps := PathAppend(states, steps, more, moreSteps);
  }

  /**
    From any state without races in which a commit has seen its transaction active and somebody waits for
    one of its keys, a Rollback lets the waiter buffer its write first: the batch reaches storage under it.
  */
  lemma RaceBreaksIsolation(s: System, t: TxId, u: TxId, key: Key)
    returns (states: seq<System>, steps: seq<Transactions.Step>)
    requires SystemInv(s) && !s.fatal && |Having(s.txs, Raced)| == 0
    requires t in s.txs && s.txs[t].mode == ReadCommitted && s.txs[t].phase.Deciding?
    requires key in s.txs[t].buffer && key !in s.txs[t].gaveUp
    requires u != t && u in s.txs && s.txs[u].active && s.txs[u].phase.Acquiring? && s.txs[u].phase.key == key
    requires u !in s.table.victims
    ensures Path(states, steps) && states[0] == s
    ensures steps == [RollbackRelease(t, true), AttemptLock(u), BufferWrite(u), CloseForCommit(t), Apply(t, true, true)]
    ensures Wrote(states[3], u, key) && Wrote(states[5], u, key)
    ensures Lookup(states[3].storage, key) == Lookup(s.storage, key)
    ensures Lookup(states[5].storage, key) == s.txs[t].buffer[key]
  {
    states, steps := RacePath(s, t, u, key);
    states, steps := PathSnoc(states, steps, CloseForCommit(t));
    ApplyReaches(states[4], t, u, key);
    states, steps := PathSnoc(states, steps, Apply(t, true, true));
  }

  /** A serialized transaction writes without key locks. */
  lemma SerializedWrites(s: System, d: TxId, u: TxId, key: Key, w: Value)
    returns (states: seq<System>, steps: seq<Transactions.Step>)
    requires !s.fatal && d in s.txs && s.txs[d] == Opened(Serialized) && u != d && Wrote(s, u, key)
    ensures Path(states, steps) && states[0] == s
    ensures Wrote(states[|steps|], u, key) && Lookup(states[|steps|].storage, key) == Some(w)
  {
    states, steps := WriteIsBuffered(s, d, key, Some(w));
    var more, moreSteps := ReachesCommit(states[|steps|], d);
    states, steps := PathAppend(states, steps, more, moreSteps);
    ApplyReaches(states[|steps|], d, u, key);
    states, steps := PathSnoc(states, steps, Apply(d, true, true));
  }

  /**
    Even when the racing commit finds its buffer empty: a serialized transaction that starts beside the one
    other holder puts its write into storage under that holder's pending one.
  */
  lemma EmptyRaceBreaksIsolation(s: System, t: TxId, u: TxId, d: TxId, key: Key, w: Value)
    returns (states: seq<System>, steps: seq<Transactions.Step>)
    requires SystemInv(s) && !s.fatal && |Having(s.txs, Raced)| == 0 && s.readers == 2 && d !in s.txs && d != NO_TX
    requires t in s.txs && s.txs[t].mode == ReadCommitted && s.txs[t].phase.Deciding?
    requires u != t && Wrote(s, u, key)
    ensures Path(states, steps) && states[0] == s && |steps| > 0 && steps[0] == RollbackRelease(t, false)
    ensures Wrote(states[|steps|], u, key) && Lookup(states[|steps|].storage, key) == Some(w)
  {
    assert TxOk(s, u);
    states, steps := RaceAdmitsSerialized(s, t, u, d);
    var more, moreSteps := SerializedWrites(states[|steps|], d, u, key, w);
    states, steps := PathAppend(states, steps, more, moreSteps);
  }

  // --- such states are reachable -----------------------------------------------------------------------------

  /** A read-committed transaction starts beside others. */
  lemma Joins(states: seq<System>, steps: seq<Transactions.Step>, t: TxId)
    returns (states': seq<System>, steps': seq<Transactions.Step>)
    requires Transactions.Run(states, steps) && t !in states[|steps|].txs && t != NO_TX
    requires !states[|steps|].writer && !states[|steps|].fatal
    ensures Transactions.Run(states', steps') && steps <= steps' && forall i :: |steps| <= i < |steps'| ==>
      !steps'[i].GiveUp?
    ensures var s, s' := states[|steps|], states'[|steps'|];
      && s'.txs == s.txs[t := FRESH] && s'.table == Register(s.table, t) && !s'.writer && !s'.fatal
      && s'.storage == s.storage && s'.readers == s.readers + 1
  {
    var more, moreSteps := BeginOpens(states[|steps|], t, ReadCommitted);
    states', steps' := PathAppend(states, steps, more, moreSteps);
  }

  /** One transaction has written `key` and holds its lock. */
  lemma OneWriter(a: TxId, key: Key, v: Value) returns (states: seq<System>, steps: seq<Transactions.Step>)
    requires a != NO_TX
    ensures Transactions.Run(states, steps) && forall i :: 0 <= i < |steps| ==> !steps[i].GiveUp?
    ensures var s := states[|steps|];
      && s.txs == map[a := FRESH.(buffer := map[key := Some(v)])]
      && s.table == Table({a}, map[key := a], map[], {}) && !s.writer && !s.fatal && s.storage == map[]
  {
    states, steps := Joins([START], [], a);
    assert map[][a := FRESH] == map[a := FRESH];
    var more, moreSteps := WriteIsBuffered(states[|steps|], a, key, Some(v));
    assert {} - {key} == {} && map[][key := Some(v)] == map[key := Some(v)];
    states, steps := PathAppend(states, steps, more, moreSteps);
  }

  /** One transaction has written `key`, and another has tried to lock it and waits. */
  lemma Contended(a: TxId, b: TxId, key: Key, v: Value, w: Value)
    returns (states: seq<System>, steps: seq<Transactions.Step>)
    requires a != b && a != NO_TX && b != NO_TX
    ensures Transactions.Run(states, steps) && forall i :: 0 <= i < |steps| ==> !steps[i].GiveUp?
    ensures var s := states[|steps|];
      && s.txs == map[a := FRESH.(buffer := map[key := Some(v)]), b := FRESH.(phase := Acquiring(key, Some(w), true))]
      && s.table == Table({a, b}, map[key := a], map[b := key], {}) && !s.fatal && s.storage == map[]
  {
    states, steps := OneWriter(a, key, v);
    states, steps := Joins(states, steps, b);
    states, steps := PathSnoc(states, steps, Write(b, key, Some(w)));
    states, steps := PathSnoc(states, steps, AttemptLock(b));
  }

  /** A run with an exhausted wait after which storage changed under a pending write. */
  lemma ExhaustedWaitRun(a: TxId, b: TxId, key: Key, v: Value, w: Value)
    returns (states: seq<System>, steps: seq<Transactions.Step>, m: nat)
    requires a != b && a != NO_TX && b != NO_TX
    ensures Transactions.Run(states, steps) && m < |steps|
    ensures Wrote(states[m], a, key) && Lookup(states[m].storage, key) == None
    ensures Wrote(states[|steps|], a, key) && Lookup(states[|steps|].storage, key) == Some(w)
  {
    states, steps := Contended(a, b, key, v, w);
    m := |steps|;
    RunKeepsSystemInv(states, steps, m);
    var more, moreSteps := GiveUpBreaksIsolation(states[m], b, a);
    states, steps := PathAppend(states, steps, more, moreSteps);
  }

  /** A run without an exhausted wait in which a Rollback during a commit has the same effect. */
  lemma InterruptedCommitRun(a: TxId, b: TxId, key: Key, v: Value, w: Value)
    returns (states: seq<System>, steps: seq<Transactions.Step>, m: nat)
    requires a != b && a != NO_TX && b != NO_TX
    ensures Transactions.Run(states, steps) && m < |steps| && forall i :: 0 <= i < |steps| ==> !steps[i].GiveUp?
    ensures Wrote(states[m], b, key) && Lookup(states[m].storage, key) == None
    ensures Wrote(states[|steps|], b, key) && Lookup(states[|steps|].storage, key) == Some(v)
  {
    states, steps := Contended(a, b, key, v, w);
    var commit, commitSteps := ReachesCommit(states[|steps|], a);
    states, steps := PathAppend(states, steps, commit, commitSteps);
    var n := |steps|;
    RunKeepsSystemInv(states, steps, n);
    var more, moreSteps := InterruptionBreaksIsolation(states[n], a, b, key);
    states, steps := PathAppend(states, steps, more, moreSteps);
    m := n + 3;
    assert states[m] == more[3];
  }

  /** A run without an exhausted wait in which a Rollback that races with a commit has the same effect. */
  lemma RacedCommitRun(a: TxId, b: TxId, key: Key, v: Value, w: Value)
    returns (states: seq<System>, steps: seq<Transactions.Step>, m: nat)
    requires a != b && a != NO_TX && b != NO_TX
    ensures Transactions.Run(states, steps) && m < |steps| && forall i :: 0 <= i < |steps| ==> !steps[i].GiveUp?
    ensures Wrote(states[m], b, key) && Lookup(states[m].storage, key) == None
    ensures Wrote(states[|steps|], b, key) && Lookup(states[|steps|].storage, key) == Some(v)
  {
    states, steps := Contended(a, b, key, v, w);
    states, steps := PathSnoc(states, steps, Commit(a));
    var n := |steps|;
    RunKeepsSystemInv(states, steps, n);
    NobodyRacedIn(states[n].txs);
    var more, moreSteps := RaceBreaksIsolation(states[n], a, b, key);
    states, steps := PathAppend(states, steps, more, moreSteps);
    m := n + 3;
    assert states[m] == more[3];
  }

  lemma NobodyRacedIn(txs: map<TxId, Tx>)
    requires forall t :: t in txs ==> !txs[t].raced
    ensures |Having(txs, Raced)| == 0
  {
    assert Having(txs, Raced) == {};
  }

  /** A run in which a commit and a Rollback of one transaction end in a fatal unlock. */
  lemma RacedCommitIsFatal(a: TxId) returns (states: seq<System>, steps: seq<Transactions.Step>)
    requires a != NO_TX
    ensures Transactions.Run(states, steps) && states[|steps|].fatal
  {
    states, steps := Joins([START], [], a);
    states, steps := PathSnoc(states, steps, Commit(a));
    var s := states[|steps|];
    RunKeepsSystemInv(states, steps, |steps|);
    NobodyRacedIn(s.txs);
    var more, moreSteps := RaceReleasesTwice(s, a);
    states, steps := PathAppend(states, steps, more, moreSteps);
  }

  /** A run in which, after such a race, a serialized transaction is open beside another one. */
  lemma SerializedBesideAnother(a: TxId, c: TxId, d: TxId) returns (states: seq<System>, steps: seq<Transactions.Step>)
    requires a != c && c != d && a != d && a != NO_TX && c != NO_TX && d != NO_TX
    ensures Transactions.Run(states, steps)
    ensures var s := states[|steps|];
      d in s.txs && s.txs[d].mode == Serialized && Holds(s.txs[d]) && c in s.txs && Holds(s.txs[c])
  {
    states, steps := Joins([START], [], a);
    states, steps := Joins(states, steps, c);
    states, steps := PathSnoc(states, steps, Commit(a));
    var s := states[|steps|];
    RunKeepsSystemInv(states, steps, |steps|);
    NobodyRacedIn(s.txs);
    var more, moreSteps := RaceAdmitsSerialized(s, a, c, d);
    states, steps := PathAppend(states, steps, more, moreSteps);
  }
}
