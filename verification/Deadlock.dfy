/**
  Deadlocks among transactions: what keeps a cycle of waits, how the chosen victim resolves it, and how an
  exhausted wait makes the lock manager see a deadlock where there is none.
*/
module Deadlock {
  import opened Options
  import opened WaitGraph
  import opened LockTable
  import opened Transactions
  import opened Calls
  import opened Isolation

  // --- a waiting transaction attempts no key but the one it awaits -----------------------------------

  /** `t` is still in the wait that the lock table has recorded for it, or that wait has failed. */
  ghost predicate WaitsAsRecorded(s: System, t: TxId)
    requires t in s.table.awaiting
  {
    && t in s.txs
    && (s.txs[t].phase.Failing? || (s.txs[t].phase.Acquiring? && s.txs[t].phase.key == s.table.awaiting[t]))
  }

  /** If a wait is recorded for `t`, that is where it is. */
  ghost predicate Matches(s: System, t: TxId) {
    t in s.table.awaiting ==> WaitsAsRecorded(s, t)
  }

  /** The lock-table step that a transaction step takes, if any. */
  function LockStep(s: System, step: Transactions.Step): seq<LockTable.Step> {
    match step
    case RegisterTx(t) => [RegisterStep(t)]
    case AttemptLock(t) => if t in s.txs && s.txs[t].phase.Acquiring? then [AttemptStep(t, s.txs[t].phase.key)] else []
    case ReleaseFailed(t) => [ReleaseStep(t)]
    case ReleaseCommitted(t) => [ReleaseStep(t)]
    case RollbackRelease(t, _) => [ReleaseStep(t)]
    case MarkVictim(start, _) => [DetectStep(start)]
    case _ => []
  }

  lemma ReleaseKeysTable(s: System, t: TxId)
    requires t in s.txs
    ensures ReleaseKeys(s, t).table == Release(s.table, t)
  {
    if t in s.table.registered {
      ReleaseKeysShape(s, t);
    }
  }

  lemma UnlockTable(s: System, t: TxId)
    requires t in s.txs
    ensures UnlockThenIdle(s, t).table == s.table
  {
    UnlockThenIdleShape(s, t);
  }

  lemma CloseCommitTable(s: System, t: TxId)
    requires t in s.txs
    ensures CloseCommit(s, t).table == s.table
  {
    UnlockIsLeft(s, t, s.txs[t].(active := false, phase := Idle), s.table, 1, 0);
  }

  lemma RollbackTable(s: System, t: TxId)
    requires SystemInv(s) && t in s.txs && (s.txs[t].phase.Closing? ||
      (s.txs[t].phase.Idle? && s.txs[t].pendingRollbacks > 0))
    ensures RollbackLocked(s, t).table == s.table
  {
    assert TxOk(s, t);
    if s.txs[t].active {
      RollbackLockedShape(s, t);
    }
  }

  /** Every step takes its lock-table step or leaves the table alone. */
  lemma TakesLockStep(s: System, step: Transactions.Step)
    requires SystemInv(s) && Enabled(s, step)
    ensures var locks := LockStep(s, step);
      if locks == [] then Do(s, step).table == s.table else LockTable.Next(s.table, locks[0], Do(s, step).table)
  {
    match step
    case ReleaseFailed(t) => ReleaseKeysTable(s, t);
    case ReleaseCommitted(t) => ReleaseKeysTable(s, t);
    case RollbackRelease(t, _) => ReleaseKeysTable(s, t);
    case CloseFailed(t) => RollbackTable(s, t);
    case RollbackFinish(t) => RollbackTable(s, t);
    case CloseForCommit(t) => CloseCommitTable(s, t);
    case UnlockIsolation(t) => UnlockTable(s, t);
    case Apply(t, ok, applied) => ApplyShape(s, t, ok, applied);
    case RegisterTx(t) => assert TxOk(s, t);
    case _ =>
  }

  /** The table after a step that is not an attempt records no wait that it did not record before. */
  lemma NoNewWait(table: Table, step: LockTable.Step, table': Table)
    requires LockTable.Next(table, step, table') && !step.AttemptStep?
    ensures forall t :: t in table'.awaiting ==> t in table.awaiting && table'.awaiting[t] == table.awaiting[t]
    ensures step.ReleaseStep? && step.tx in table.registered ==> step.tx !in table'.awaiting
  {
    if step.DetectStep? {
      assert table'.awaiting == table.awaiting;
    }
  }

  lemma OthersStay(s: System, step: Transactions.Step, u: TxId)
    requires SystemInv(s) && Enabled(s, step) && u in s.txs && (u != step.tx || Creates(step))
    ensures u in Do(s, step).txs && Do(s, step).txs[u] == s.txs[u]
  {
    if Creates(step) {
      CreateFrame(s, step, u);
    } else if step.Apply? {
      ApplyShape(s, step.tx, step.ok, step.applied);
    } else {
      StepMoves(s, step);
    }
  }

  /** A step from the phases of a wait that is neither an attempt nor giving up ends the recorded wait. */
  lemma OwnStepEndsWait(s: System, step: Transactions.Step)
    requires SystemInv(s) && Enabled(s, step) && !Creates(step) && !step.AttemptLock? && !step.GiveUp?
    requires step.tx in s.table.awaiting && WaitsAsRecorded(s, step.tx)
    ensures step.tx !in Do(s, step).table.awaiting
  {
    assert step.ReleaseFailed? || step.RollbackRelease?;
    TakesLockStep(s, step);
    NoNewWait(s.table, ReleaseStep(step.tx), Do(s, step).table);
  }

  lemma NoNewWaits(s: System, step: Transactions.Step)
    requires SystemInv(s) && Enabled(s, step) && !step.AttemptLock?
    ensures var after := Do(s, step).table.awaiting;
      forall t :: t in after ==> t in s.table.awaiting && after[t] == s.table.awaiting[t]
  {
    TakesLockStep(s, step);
    if LockStep(s, step) != [] {
      NoNewWait(s.table, LockStep(s, step)[0], Do(s, step).table);
    }
  }

  /** Every step but its own giving up keeps a transaction's recorded and actual wait the same. */
  lemma StepKeepsWaits(s: System, step: Transactions.Step, t: TxId)
    requires SystemInv(s) && Matches(s, t) && Enabled(s, step) && step != GiveUp(t)
    ensures Matches(Do(s, step), t)
  {
    if step.AttemptLock? {
    } else {
      NoNewWaits(s, step);
      if t in Do(s, step).table.awaiting {
        if t == step.tx && !Creates(step) {
          OwnStepEndsWait(s, step);
        } else {
          OthersStay(s, step, t);
        }
      }
    }
  }

  lemma {:induction false} RunKeepsWaits(states: seq<System>, steps: seq<Transactions.Step>, n: nat, t: TxId)
    requires Transactions.Run(states, steps) && n < |states| && forall i :: 0 <= i < n ==> steps[i] != GiveUp(t)
    ensures Matches(states[n], t)
  {
    if n > 0 {
      RunKeepsWaits(states, steps, n - 1, t);
      RunKeepsSystemInv(states, steps, n - 1);
      assert StepAt(states, steps, n - 1);
      StepKeepsWaits(states[n - 1], steps[n - 1], t);
    }
  }

  /** So an attempt by a waiting transaction is on the key it awaits, and leaves no stale waiter behind. */
  lemma AttemptsAreBlocking(s: System, t: TxId)
    requires Matches(s, t) && Enabled(s, AttemptLock(t))
    ensures Blocking(s.table, AttemptStep(t, s.txs[t].phase.key))
  {
  }

  // --- cycles ----------------------------------------------------------------------------------------

  ghost predicate Deadlocked(s: System, cycle: seq<TxId>) { SimpleCycle(WaitsFor(s.table), cycle) }

  /** A member gives up its keys: after its wait failed, or because it is rolled back. */
  predicate MemberLeaves(step: Transactions.Step, cycle: seq<TxId>) {
    (step.ReleaseFailed? || step.RollbackRelease?) && step.tx in cycle
  }

  lemma MemberWaits(s: System, cycle: seq<TxId>, t: TxId)
    requires SystemInv(s) && Matches(s, t) && Deadlocked(s, cycle) && t in cycle
    ensures t in s.table.awaiting && t in s.table.registered && WaitsAsRecorded(s, t)
  {
    VictimIsRegistered(s.table, cycle, t);
  }

  lemma BreakingMeansLeaving(s: System, step: Transactions.Step, cycle: seq<TxId>)
    requires SystemInv(s) && Enabled(s, step) && Deadlocked(s, cycle) && LockStep(s, step) != []
    requires step.tx in cycle ==> Matches(s, step.tx)
    ensures BreaksCycle(s.table, cycle, LockStep(s, step)[0]) <==> MemberLeaves(step, cycle)
  {
    if step.tx in cycle {
      MemberWaits(s, cycle, step.tx);
    }
  }

  /** Unless the one who steps gave up a wait before, a cycle survives a step if and only if no member leaves by it. */
  lemma CycleSurvivesStep(s: System, step: Transactions.Step, cycle: seq<TxId>)
    requires SystemInv(s) && Enabled(s, step) && Deadlocked(s, cycle)
    requires step.tx in cycle ==> Matches(s, step.tx)
    ensures Deadlocked(Do(s, step), cycle) <==> !MemberLeaves(step, cycle)
  {
    TakesLockStep(s, step);
    if LockStep(s, step) != [] {
      BreakingMeansLeaving(s, step, cycle);
      CycleSurvives(s.table, LockStep(s, step)[0], Do(s, step).table, cycle);
    }
  }

  /** A deadlock whose members gave up no wait persists until a member leaves, whatever others gave up. */
  lemma {:induction false} DeadlockPersistsInRun(states: seq<System>, steps: seq<Transactions.Step>, cycle: seq<TxId>,
      m: nat, n: nat)
    requires Transactions.Run(states, steps) && m <= n < |states| && Deadlocked(states[m], cycle)
    requires forall i :: 0 <= i < n && steps[i].GiveUp? ==> steps[i].tx !in cycle
    requires forall i :: m <= i < n ==> !MemberLeaves(steps[i], cycle)
    ensures Deadlocked(states[n], cycle)
    decreases n
  {
    if m < n {
      DeadlockPersistsInRun(states, steps, cycle, m, n - 1);
      RunKeepsSystemInv(states, steps, n - 1);
      if steps[n - 1].tx in cycle {
        RunKeepsWaits(states, steps, n - 1, steps[n - 1].tx);
      }
      assert StepAt(states, steps, n - 1);
      CycleSurvivesStep(states[n - 1], steps[n - 1], cycle);
    }
  }

  /** In every run, a member of a deadlock that never gave up a wait is really waiting, or its wait has failed. */
  lemma MembersReallyWait(states: seq<System>, steps: seq<Transactions.Step>, n: nat, cycle: seq<TxId>, t: TxId)
    requires Transactions.Run(states, steps) && n < |states| && Deadlocked(states[n], cycle) && t in cycle
    requires forall i :: 0 <= i < n ==> steps[i] != GiveUp(t)
    ensures t in states[n].table.awaiting && WaitsAsRecorded(states[n], t)
  {
    RunKeepsSystemInv(states, steps, n);
    RunKeepsWaits(states, steps, n, t);
    MemberWaits(states[n], cycle, t);
  }

  // --- resolution --------------------------------------------------------------------------------------

  /** A marked member that is still waiting finds out at its next attempt, which changes nothing else. */
  lemma VictimFindsOut(s: System, cycle: seq<TxId>, victim: TxId)
    requires SystemInv(s) && !s.fatal && Matches(s, victim) && Deadlocked(s, cycle) && victim in cycle
    requires victim in s.table.victims
    ensures victim in s.txs && (s.txs[victim].phase.Failing? || Enabled(s, AttemptLock(victim)))
    ensures !s.txs[victim].phase.Failing? ==>
      Do(s, AttemptLock(victim)) == Set(s, victim, s.txs[victim].(phase := Failing))
  {
    MemberWaits(s, cycle, victim);
  }

  /** A member whose wait has failed releases its keys, and with that the deadlock is resolved. */
  lemma FailedMemberResolves(s: System, cycle: seq<TxId>, victim: TxId)
    requires SystemInv(s) && !s.fatal && Deadlocked(s, cycle) && victim in cycle
    requires victim in s.txs && s.txs[victim].phase.Failing?
    ensures Enabled(s, ReleaseFailed(victim))
    ensures var before, after := WaitsFor(s.table), WaitsFor(Do(s, ReleaseFailed(victim)).table);
      && |CycleNodes(after)| < |CycleNodes(before)|
      && forall t :: t in cycle || Reaches(before, t, cycle[0]) ==> !Endless(after, t)
  {
    ReleaseKeysTable(s, victim);
    ReleaseResolvesDeadlock(s.table, cycle, victim);
  }

  /**
    The chosen victim can always resolve its deadlock: at most its next attempt and then its release are
    enabled, and they leave strictly fewer transactions on cycles and every former member's wait finite.
  */
  lemma VictimResolves(s: System, cycle: seq<TxId>, victim: TxId) returns (steps: seq<Transactions.Step>, s': System)
    requires SystemInv(s) && !s.fatal && Matches(s, victim) && Deadlocked(s, cycle) && victim in cycle
    requires victim in s.table.victims
    ensures steps == [ReleaseFailed(victim)] || steps == [AttemptLock(victim), ReleaseFailed(victim)]
    ensures Enabled(s, steps[0]) && (|steps| == 2 ==> Enabled(Do(s, steps[0]), steps[1]))
    ensures s' == if |steps| == 1 then Do(s, steps[0]) else Do(Do(s, steps[0]), steps[1])
    ensures |CycleNodes(WaitsFor(s'.table))| < |CycleNodes(WaitsFor(s.table))|
    ensures forall t :: t in cycle || Reaches(WaitsFor(s.table), t, cycle[0]) ==> !Endless(WaitsFor(s'.table), t)
  {
    VictimFindsOut(s, cycle, victim);
    if s.txs[victim].phase.Failing? {
      FailedMemberResolves(s, cycle, victim);
      steps, s' := [ReleaseFailed(victim)], Do(s, ReleaseFailed(victim));
    } else {
      var s1 := Do(s, AttemptLock(victim));
      StepKeepsSystemInv(s, AttemptLock(victim));
      FailedMemberResolves(s1, cycle, victim);
      steps, s' := [AttemptLock(victim), ReleaseFailed(victim)], Do(s1, ReleaseFailed(victim));
    }
  }

  // --- deadlocks that are none ---------------------------------------------------------------------------

  /** A failed attempt is recorded as a wait as long as the transaction is registered. */
  ghost predicate Recorded(s: System, t: TxId) {
    t in s.txs && s.txs[t].phase.Acquiring? && s.txs[t].phase.tried && t in s.table.registered ==>
      t in s.table.awaiting && s.table.awaiting[t] == s.txs[t].phase.key
  }

  lemma OthersKeepWait(table: Table, step: LockTable.Step, table': Table, t: TxId)
    requires LockTable.Next(table, step, table') && (step.tx != t || step.DetectStep?)
    ensures t in table'.registered <==> t in table.registered
    ensures t in table'.awaiting <==> t in table.awaiting
    ensures t in table.awaiting ==> table'.awaiting[t] == table.awaiting[t]
  {
    if step.DetectStep? {
      assert table'.awaiting == table.awaiting && table'.registered == table.registered;
    }
  }

  lemma OthersKeepRecorded(s: System, step: Transactions.Step, t: TxId)
    requires SystemInv(s) && Recorded(s, t) && Enabled(s, step) && t in s.txs && (t != step.tx || Creates(step))
    ensures Recorded(Do(s, step), t)
  {
    OthersStay(s, step, t);
    TakesLockStep(s, step);
    if LockStep(s, step) != [] {
      OthersKeepWait(s.table, LockStep(s, step)[0], Do(s, step).table, t);
    }
  }

  lemma RollbackKeepsPhase(s: System, t: TxId)
    requires SystemInv(s) && t in s.txs && s.txs[t].phase.Idle? && s.txs[t].pendingRollbacks > 0
    ensures RollbackLocked(s, t).txs[t].phase.Idle?
  {
    assert TxOk(s, t);
    if s.txs[t].active {
      RollbackLockedShape(s, t);
    }
  }

  lemma CloseCommitPhase(s: System, t: TxId)
    requires t in s.txs
    ensures CloseCommit(s, t).txs[t].phase.Idle? || CloseCommit(s, t).txs[t].phase.Committing?
  {
  }

  /** The steps that end a call. */
  lemma EndingStepsLeaveWait(s: System, step: Transactions.Step)
    requires SystemInv(s) && Enabled(s, step)
    requires step.CloseFailed? || step.RollbackFinish? || step.CloseForCommit? || step.UnlockIsolation? ||
      step.Apply? || step.ReleaseFailed? || step.ReleaseCommitted?
    ensures var txs := Do(s, step).txs; step.tx in txs ==> !txs[step.tx].phase.Acquiring?
  {
    match step
    case RollbackFinish(t) => RollbackKeepsPhase(s, t);
    case CloseForCommit(t) => CloseCommitPhase(s, t);
    case Apply(t, ok, applied) => ApplyShape(s, t, ok, applied);
    case _ =>
  }

  /** The only own steps that can lead to a wait after a failed attempt, or leave one there. */
  lemma OwnStepsLeaveWait(s: System, step: Transactions.Step)
    requires SystemInv(s) && Enabled(s, step) && !Creates(step) && !step.AttemptLock? && !step.RollbackRelease?
    ensures var txs := Do(s, step).txs;
      step.tx in txs && txs[step.tx].phase.Acquiring? ==> !txs[step.tx].phase.tried
  {
    if !(step.LockIsolation? || step.RegisterTx? || step.Write? || step.GiveUp? || step.BufferWrite? || step.Commit?) {
      EndingStepsLeaveWait(s, step);
    }
  }

  lemma AttemptIsRecorded(s: System, t: TxId)
    requires t in s.txs && s.txs[t].phase.Acquiring?
    ensures Recorded(TryLock(s, t), t)
  {
  }

  lemma RolledBackIsRecorded(s: System, t: TxId, kept: bool)
    requires Recorded(s, t) && t in s.txs
    ensures Recorded(StartRollback(s, t, kept), t)
  {
    ReleaseKeysTable(s, t);
  }

  lemma OwnStepKeepsRecorded(s: System, step: Transactions.Step)
    requires SystemInv(s) && Enabled(s, step) && !Creates(step) && Recorded(s, step.tx)
    ensures Recorded(Do(s, step), step.tx)
  {
    if step.RollbackRelease? {
      RolledBackIsRecorded(s, step.tx, step.kept);
    } else if step.AttemptLock? {
      AttemptIsRecorded(s, step.tx);
    } else {
      OwnStepsLeaveWait(s, step);
    }
  }

  lemma StepKeepsRecorded(s: System, step: Transactions.Step, t: TxId)
    requires SystemInv(s) && Recorded(s, t) && Enabled(s, step)
    ensures Recorded(Do(s, step), t)
  {
    if t !in s.txs {
      if t in Do(s, step).txs {
        NewTxs(s, step, t);
      }
    } else if t != step.tx || Creates(step) {
      OthersKeepRecorded(s, step, t);
    } else {
      OwnStepKeepsRecorded(s, step);
    }
  }

  lemma {:induction false} RunKeepsRecorded(states: seq<System>, steps: seq<Transactions.Step>, n: nat, t: TxId)
    requires Transactions.Run(states, steps) && n < |states|
    ensures Recorded(states[n], t)
  {
    if n > 0 {
      RunKeepsRecorded(states, steps, n - 1, t);
      RunKeepsSystemInv(states, steps, n - 1);
      assert StepAt(states, steps, n - 1);
      StepKeepsRecorded(states[n - 1], steps[n - 1], t);
    }
  }

  /**
    Giving up always leaves the wait recorded: in every run, afterwards the transaction is recorded as waiting
    where it is not if and only if it is still registered.
  */
  lemma GiveUpLeavesWait(states: seq<System>, steps: seq<Transactions.Step>, n: nat, t: TxId)
    requires Transactions.Run(states, steps) && n < |steps| && steps[n] == GiveUp(t)
    ensures !Matches(states[n + 1], t) <==> t in states[n].table.registered
  {
    RunKeepsSystemInv(states, steps, n);
    RunKeepsRecorded(states, steps, n, t);
    assert StepAt(states, steps, n);
  }

  /** An open read-committed transaction between two calls, not chosen as victim. */
  predicate Ready(s: System, t: TxId) {
    Open(s, t) && s.txs[t].mode == ReadCommitted && t in s.table.registered && t !in s.table.victims
  }

  /** It tries to write a key that somebody else owns. */
  lemma WaitsForKey(s: System, t: TxId, key: Key, v: Value) returns (states: seq<System>, steps: seq<Transactions.Step>)
    requires Ready(s, t) && key in s.table.owner && s.table.owner[key] != t
    ensures Path(states, steps) && states[0] == s
    ensures states[|steps|] == Set(
      s.(table := s.table.(awaiting := s.table.awaiting[t := key])), t,
      s.txs[t].(phase := Acquiring(key, Some(v), true)))
  {
    states, steps := PathSnoc([s], [], Write(t, key, Some(v)));
    states, steps := PathSnoc(states, steps, AttemptLock(t));
  }

  /** It gives up and buffers its write. */
  lemma GivesUp(s: System, t: TxId) returns (states: seq<System>, steps: seq<Transactions.Step>)
    requires Enabled(s, GiveUp(t))
    ensures Path(states, steps) && states[0] == s
    ensures var x := s.txs[t];
      states[|steps|] == Set(s, t,
        x.(phase := Idle, gaveUp := x.gaveUp + {x.phase.key}, buffer := x.buffer[x.phase.key := x.phase.write]))
  {
    states, steps := PathSnoc([s], [], GiveUp(t));
    states, steps := PathSnoc(states, steps, BufferWrite(t));
  }

  /** Two transactions, each with a key of its own. */
  lemma TwoWriters(a: TxId, b: TxId, k: Key, l: Key, v: Value)
    returns (states: seq<System>, steps: seq<Transactions.Step>)
    requires a != b && a != NO_TX && b != NO_TX && k != l
    ensures Transactions.Run(states, steps)
    ensures var s := states[|steps|];
      && s.table == Table({a, b}, map[k := a, l := b], map[], {}) && !s.fatal
      && s.txs == map[a := FRESH.(buffer := map[k := Some(v)]), b := FRESH.(buffer := map[l := Some(v)])]
  {
    states, steps := OneWriter(a, k, v);
    states, steps := Joins(states, steps, b);
    var more, moreSteps := WriteIsBuffered(states[|steps|], b, l, Some(v));
    states, steps := PathAppend(states, steps, more, moreSteps);
    assert FRESH.gaveUp - {l} == {} && map[][l := Some(v)] == map[l := Some(v)];
  }

  /** The second has tried the first one's key and given up. */
  lemma OneGaveUp(a: TxId, b: TxId, k: Key, l: Key, v: Value)
    returns (states: seq<System>, steps: seq<Transactions.Step>)
    requires a != b && a != NO_TX && b != NO_TX && k != l
    ensures Transactions.Run(states, steps) && Ready(states[|steps|], a) && Ready(states[|steps|], b)
    ensures states[|steps|].table == Table({a, b}, map[k := a, l := b], map[b := k], {})
  {
    states, steps := TwoWriters(a, b, k, l, v);
    var more, moreSteps := WaitsForKey(states[|steps|], b, k, v);
    states, steps := PathAppend(states, steps, more, moreSteps);
    more, moreSteps := GivesUp(states[|steps|], b);
    states, steps := PathAppend(states, steps, more, moreSteps);
  }

  /** The first waits for the second one's key. */
  lemma OneStillWaits(a: TxId, b: TxId, k: Key, l: Key, v: Value)
    returns (states: seq<System>, steps: seq<Transactions.Step>)
    requires a != b && a != NO_TX && b != NO_TX && k != l
    ensures Transactions.Run(states, steps) && Ready(states[|steps|], b)
    ensures states[|steps|].table == Table({a, b}, map[k := a, l := b], map[b := k, a := l], {})
  {
    states, steps := OneGaveUp(a, b, k, l, v);
    var more, moreSteps := WaitsForKey(states[|steps|], a, l, v);
    states, steps := PathAppend(states, steps, more, moreSteps);
  }

  /** Two transactions that await each other's only key: either may be chosen. */
  lemma MarksEither(table: Table, a: TxId, b: TxId, k: Key, l: Key)
    requires a != b && k != l && table == Table({a, b}, map[k := a, l := b], map[b := k, a := l], {})
    ensures SimpleCycle(WaitsFor(table), [a, b]) && Endless(WaitsFor(table), a)
    ensures Detect(table, a, table.(victims := table.victims + {b}))
  {
    var g := WaitsFor(table);
    assert WaitsOnSuccessor(g, [a, b], 0) && WaitsOnSuccessor(g, [a, b], 1);
    assert SimpleCycle(g, [a, b]);
    assert Walk(g, a, 0) == Some([a, b][0]);
    ReachingACycleIsEndless(g, a, [a, b]);
    assert OwnedBy(table, a) == {k} && OwnedBy(table, b) == {l};
    assert FewestKeys(table, [a, b], b);
  }

  /** An open transaction whose every lock attempt will be refused. */
  ghost predicate Doomed(s: System, t: TxId) {
    t in s.table.victims && t in s.txs && s.txs[t].active && forall key :: AttemptOutcome(s.table, key, t) == Terminated
  }

  lemma MarksIdle(s: System, a: TxId, b: TxId, k: Key, l: Key)
    requires a != b && k != l && Ready(s, b)
    requires s.table == Table({a, b}, map[k := a, l := b], map[b := k, a := l], {})
    ensures Enabled(s, MarkVictim(a, b))
    ensures var s' := Do(s, MarkVictim(a, b));
      Deadlocked(s', [a, b]) && Doomed(s', b) && s'.txs[b].phase.Idle? && Enabled(s', Commit(b))
  {
    MarksEither(s.table, a, b, k, l);
    WaitsForIgnoresVictims(s.table, s.table.victims + {b});
  }

  /**
    A run in which a transaction that waits for nothing is chosen as the victim of a deadlock: it gave up
    its wait, and the other one, which waits for it, only needs it to go on and commit.
  */
  lemma PhantomDeadlock(a: TxId, b: TxId, k: Key, l: Key, v: Value)
    returns (states: seq<System>, steps: seq<Transactions.Step>)
    requires a != b && a != NO_TX && b != NO_TX && k != l
    ensures Transactions.Run(states, steps)
    ensures var s := states[|steps|];
      Deadlocked(s, [a, b]) && Doomed(s, b) && s.txs[b].phase.Idle? && Enabled(s, Commit(b))
  {
    states, steps := OneStillWaits(a, b, k, l, v);
    MarksIdle(states[|steps|], a, b, k, l);
    states, steps := PathSnoc(states, steps, MarkVictim(a, b));
  }
}
