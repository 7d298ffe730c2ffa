/**
  The lock manager seen as an interleaved step system. Every critical section under the
  manager's mutex is one step; transactions run their steps in any order.

  Only the facts a reader needs are kept: who is registered, who owns each key, which key each
  transaction awaits, and who was chosen to break a deadlock. The class in Locks.dfy keeps two
  more maps (the inverse indexes) and is proved to take exactly these steps.
*/
module LockTable {
  import opened Bytes
  import opened WaitGraph

  type TxId = string
  type Key = Bytes

  /** What a missing owner reads as: no transaction is registered under the empty id. */
  const NO_TX: TxId := ""

  datatype Table = Table(
    registered: set<TxId>,
    owner: map<Key, TxId>,
    awaiting: map<TxId, Key>,
    victims: set<TxId>)

  const EMPTY := Table({}, map[], map[], {})

  datatype Outcome = Acquired | MustWait | Terminated | NotRegistered

  function OwnedBy(s: Table, tx: TxId): set<Key> {
    set key | key in s.owner && s.owner[key] == tx
  }

  function OwnerOf(s: Table, key: Key): TxId {
    if key in s.owner then s.owner[key] else NO_TX
  }

  /** Each waiting transaction points to the owner of the key it awaits. */
  function WaitsFor(s: Table): Graph {
    map tx | tx in s.awaiting :: OwnerOf(s, s.awaiting[tx])
  }

  // --- the steps ------------------------------------------------------------------------------

  function Register(s: Table, tx: TxId): Table {
    s.(registered := s.registered + {tx})
  }

  function AttemptOutcome(s: Table, key: Key, tx: TxId): Outcome {
    if tx !in s.registered then NotRegistered
    else if tx in s.victims then Terminated
    else if key !in s.owner || s.owner[key] == tx then Acquired
    else MustWait
  }

  function Attempt(s: Table, key: Key, tx: TxId): Table {
    match AttemptOutcome(s, key, tx)
    case Acquired => s.(owner := s.owner[key := tx], awaiting := s.awaiting - {tx})
    case MustWait => s.(awaiting := s.awaiting[tx := key])
    case _ => s
  }

  function Release(s: Table, tx: TxId): Table {
    if tx !in s.registered then s
    else Table(s.registered - {tx}, s.owner - OwnedBy(s, tx), s.awaiting - {tx}, s.victims - {tx})
  }

  /** `victim` may be chosen: nobody in the cycle holds fewer keys (counted up to the largest int). */
  ghost predicate FewestKeys(s: Table, cycle: seq<TxId>, victim: TxId) {
    victim in cycle &&
    forall tx :: tx in cycle ==> |OwnedBy(s, victim)| <= |OwnedBy(s, tx)| || MAX_INT <= |OwnedBy(s, tx)|
  }

  const MAX_INT := 0x7fff_ffff_ffff_ffff

  ghost predicate Detect(s: Table, start: TxId, s': Table) {
    if Endless(WaitsFor(s), start) then
      exists cycle, victim ::
        SimpleCycle(WaitsFor(s), cycle) && Reaches(WaitsFor(s), start, cycle[0]) &&
        FewestKeys(s, cycle, victim) && s' == s.(victims := s.victims + {victim})
    else s' == s
  }

  datatype Step =
    | RegisterStep(tx: TxId)
    | AttemptStep(tx: TxId, key: Key)
    | DetectStep(tx: TxId)
    | ReleaseStep(tx: TxId)

  ghost predicate Next(s: Table, step: Step, s': Table) {
    match step
    case RegisterStep(tx) => tx != NO_TX && s' == Register(s, tx)
    case AttemptStep(tx, key) => s' == Attempt(s, key, tx)
    case DetectStep(tx) => Detect(s, tx, s')
    case ReleaseStep(tx) => s' == Release(s, tx)
  }

  /** A finite interleaving: `states[i + 1]` is reached from `states[i]` by `steps[i]`. */
  ghost predicate Run(states: seq<Table>, steps: seq<Step>) {
    |states| == |steps| + 1 &&
    forall i :: 0 <= i < |steps| ==> Next(states[i], steps[i], states[i + 1])
  }

  // --- invariant ------------------------------------------------------------------------------

  ghost predicate Inv(s: Table) {
    && NO_TX !in s.registered
    && (forall key :: key in s.owner ==> s.owner[key] in s.registered)
    && s.awaiting.Keys <= s.registered
    && s.victims <= s.registered
    && forall tx :: tx in s.awaiting ==> OwnerOf(s, s.awaiting[tx]) != tx
  }

  lemma VictimIsRegistered(s: Table, cycle: seq<TxId>, victim: TxId)
    requires Inv(s) && SimpleCycle(WaitsFor(s), cycle) && victim in cycle
    ensures victim in s.registered && victim in s.awaiting
  {
    var i :| 0 <= i < |cycle| && cycle[i] == victim;
    assert WaitsOnSuccessor(WaitsFor(s), cycle, i);
  }

  lemma WaitsForIgnoresVictims(s: Table, victims: set<TxId>)
    ensures WaitsFor(s.(victims := victims)) == WaitsFor(s)
  {
  }

  lemma DetectMarks(s: Table, start: TxId, cycle: seq<TxId>, victim: TxId)
    requires Endless(WaitsFor(s), start) && SimpleCycle(WaitsFor(s), cycle) && Reaches(WaitsFor(s), start, cycle[0])
    requires Inv(s) && FewestKeys(s, cycle, victim)
    ensures Next(s, DetectStep(start), s.(victims := s.victims + {victim}))
    ensures victim in CycleNodes(WaitsFor(s))
  {
    VictimIsRegistered(s, cycle, victim);
    CycleMembersOnCycle(WaitsFor(s), cycle);
  }

  lemma StepKeepsInv(s: Table, step: Step, s': Table)
    requires Inv(s) && Next(s, step, s')
    ensures Inv(s')
  {
    match step
    case RegisterStep(tx) =>
    case AttemptStep(tx, key) =>
    case ReleaseStep(tx) =>
    case DetectStep(tx) =>
      if Endless(WaitsFor(s), tx) {
        var cycle, victim :| SimpleCycle(WaitsFor(s), cycle) && Reaches(WaitsFor(s), tx, cycle[0]) &&
          FewestKeys(s, cycle, victim) && s' == s.(victims := s.victims + {victim});
        VictimIsRegistered(s, cycle, victim);
      }
  }

  /** Safety over whole runs: the invariant holds in every state of every interleaving. */
  lemma {:induction false} RunKeepsInv(states: seq<Table>, steps: seq<Step>, n: nat)
    requires Run(states, steps) && Inv(states[0]) && n < |states|
    ensures Inv(states[n])
  {
    if n > 0 {
      RunKeepsInv(states, steps, n - 1);
      assert Next(states[n - 1], steps[n - 1], states[n - 1 + 1]);
      StepKeepsInv(states[n - 1], steps[n - 1], states[n]);
    }
  }

  /** A key changes hands only through its owner's release. */
  lemma StepKeepsOwner(s: Table, step: Step, s': Table, key: Key)
    requires Next(s, step, s') && key in s.owner
    ensures (key in s'.owner && s'.owner[key] == s.owner[key])
         <==> !(step == ReleaseStep(s.owner[key]) && s.owner[key] in s.registered)
  {
    if step.DetectStep? {
      assert s'.owner == s.owner;
    }
  }

  lemma {:induction false} RunKeepsOwner(states: seq<Table>, steps: seq<Step>, key: Key, m: nat, n: nat)
    requires Run(states, steps) && m <= n < |states|
    requires key in states[m].owner
    requires forall i :: m <= i < n ==> steps[i] != ReleaseStep(states[m].owner[key])
    ensures key in states[n].owner && states[n].owner[key] == states[m].owner[key]
    decreases n
  {
    if m < n {
      RunKeepsOwner(states, steps, key, m, n - 1);
      assert Next(states[n - 1], steps[n - 1], states[n - 1 + 1]);
      StepKeepsOwner(states[n - 1], steps[n - 1], states[n], key);
    }
  }

  // --- what the answer of an attempt tells about the run before it ------------------------------

  predicate NoRelease(steps: seq<Step>, from: int, to: int, tx: TxId) {
    forall j :: 0 <= j < |steps| && from <= j < to ==> steps[j] != ReleaseStep(tx)
  }

  /** Step `i` registers `tx`, which is not released before step `n`. */
  predicate RegistersAt(steps: seq<Step>, i: int, n: nat, tx: TxId) {
    0 <= i < n <= |steps| && steps[i] == RegisterStep(tx) && NoRelease(steps, i + 1, n, tx)
  }

  ghost predicate Known(steps: seq<Step>, n: nat, tx: TxId) { exists i :: RegistersAt(steps, i, n, tx) }

  /** Step `i` chooses `tx` as a victim, and it is not released before step `n`. */
  predicate MarksAt(states: seq<Table>, steps: seq<Step>, i: int, n: nat, tx: TxId)
    requires |states| == |steps| + 1
  {
    0 <= i < n <= |steps| && Chooses(states[i], steps[i], states[i + 1], tx) && NoRelease(steps, i + 1, n, tx)
  }

  predicate Chooses(s: Table, step: Step, s': Table, tx: TxId) {
    step.DetectStep? && tx !in s.victims && tx in s'.victims
  }

  ghost predicate Marked(states: seq<Table>, steps: seq<Step>, n: nat, tx: TxId)
    requires |states| == |steps| + 1
  {
    exists i :: MarksAt(states, steps, i, n, tx)
  }

  /** Step `i` gives `tx` the key, and it is not released before step `n`. */
  predicate AcquiresAt(states: seq<Table>, steps: seq<Step>, i: int, n: nat, tx: TxId, key: Key)
    requires |states| == |steps| + 1
  {
    0 <= i < n <= |steps| && Acquires(states[i], steps[i], tx, key) && NoRelease(steps, i + 1, n, tx)
  }

  predicate Acquires(s: Table, step: Step, tx: TxId, key: Key) {
    step == AttemptStep(tx, key) && AttemptOutcome(s, key, tx) == Acquired
  }

  ghost predicate Got(states: seq<Table>, steps: seq<Step>, n: nat, tx: TxId, key: Key)
    requires |states| == |steps| + 1
  {
    exists i :: AcquiresAt(states, steps, i, n, tx, key)
  }

  lemma KnownStep(steps: seq<Step>, n: nat, tx: TxId)
    requires n < |steps|
    ensures Known(steps, n + 1, tx) <==>
      steps[n] == RegisterStep(tx) || (Known(steps, n, tx) && steps[n] != ReleaseStep(tx))
  {
    if i :| RegistersAt(steps, i, n, tx) {
      assert steps[n] != ReleaseStep(tx) ==> RegistersAt(steps, i, n + 1, tx);
    }
    var m := n + 1;
    if i :| RegistersAt(steps, i, m, tx) {
      assert i < n ==> RegistersAt(steps, i, n, tx);
    }
    assert steps[n] == RegisterStep(tx) ==> RegistersAt(steps, n, n + 1, tx);
  }

  lemma MarkedStep(states: seq<Table>, steps: seq<Step>, n: nat, tx: TxId)
    requires n < |steps| && |states| == |steps| + 1
    ensures Marked(states, steps, n + 1, tx) <==>
      || Chooses(states[n], steps[n], states[n + 1], tx)
      || (Marked(states, steps, n, tx) && steps[n] != ReleaseStep(tx))
  {
    if i :| MarksAt(states, steps, i, n, tx) {
      assert steps[n] != ReleaseStep(tx) ==> MarksAt(states, steps, i, n + 1, tx);
    }
    var m := n + 1;
    if i :| MarksAt(states, steps, i, m, tx) {
      assert i < n ==> MarksAt(states, steps, i, n, tx);
    }
    assert Chooses(states[n], steps[n], states[n + 1], tx) ==> MarksAt(states, steps, n, n + 1, tx);
  }

  lemma GotStep(states: seq<Table>, steps: seq<Step>, n: nat, tx: TxId, key: Key)
    requires n < |steps| && |states| == |steps| + 1
    ensures Got(states, steps, n + 1, tx, key) <==>
      Acquires(states[n], steps[n], tx, key) || (Got(states, steps, n, tx, key) && steps[n] != ReleaseStep(tx))
  {
    if i :| AcquiresAt(states, steps, i, n, tx, key) {
      assert steps[n] != ReleaseStep(tx) ==> AcquiresAt(states, steps, i, n + 1, tx, key);
    }
    var m := n + 1;
    if i :| AcquiresAt(states, steps, i, m, tx, key) {
      assert i < n ==> AcquiresAt(states, steps, i, n, tx, key);
    }
    assert Acquires(states[n], steps[n], tx, key) ==> AcquiresAt(states, steps, n, n + 1, tx, key);
  }

  /** A transaction is registered exactly when some registration of it was not followed by its release. */
  lemma {:induction false} RegisteredExactly(states: seq<Table>, steps: seq<Step>, n: nat, tx: TxId)
    requires Run(states, steps) && states[0] == EMPTY && n < |states|
    ensures tx in states[n].registered <==> Known(steps, n, tx)
  {
    if n > 0 {
      RegisteredExactly(states, steps, n - 1, tx);
      assert Next(states[n - 1], steps[n - 1], states[n - 1 + 1]);
      KnownStep(steps, n - 1, tx);
    }
  }

  /** What step `i` does to the mark of `tx`. */
  ghost predicate MarkMoves(states: seq<Table>, steps: seq<Step>, i: int, tx: TxId)
    requires |states| == |steps| + 1
  {
    0 <= i < |steps| ==>
      (tx in states[i + 1].victims <==>
        Chooses(states[i], steps[i], states[i + 1], tx) || (tx in states[i].victims && steps[i] != ReleaseStep(tx)))
  }

  lemma {:induction false} MarkedUpTo(states: seq<Table>, steps: seq<Step>, n: nat, tx: TxId)
    requires |states| == |steps| + 1 && n < |states| && tx !in states[0].victims
    requires forall i :: MarkMoves(states, steps, i, tx)
    ensures tx in states[n].victims <==> Marked(states, steps, n, tx)
  {
    if n > 0 {
      MarkedUpTo(states, steps, n - 1, tx);
      MarkedStep(states, steps, n - 1, tx);
      assert MarkMoves(states, steps, n - 1, tx);
    }
  }

  /** It is marked as a victim exactly when a detection chose it since its last release. */
  lemma MarkedExactly(states: seq<Table>, steps: seq<Step>, n: nat, tx: TxId)
    requires Run(states, steps) && states[0] == EMPTY && n < |states|
    ensures tx in states[n].victims <==> Marked(states, steps, n, tx)
  {
    forall i ensures MarkMoves(states, steps, i, tx) {
      if 0 <= i < |steps| {
        RunKeepsInv(states, steps, i);
        assert Next(states[i], steps[i], states[i + 1]);
        MarkedAfter(states[i], steps[i], states[i + 1], tx);
      }
    }
    MarkedUpTo(states, steps, n, tx);
  }

  lemma MarkedAfter(s: Table, step: Step, s': Table, tx: TxId)
    requires Inv(s) && Next(s, step, s')
    ensures tx in s'.victims <==> Chooses(s, step, s', tx) || (tx in s.victims && step != ReleaseStep(tx))
  {
    if step.DetectStep? {
      assert s.victims <= s'.victims;
    }
  }

  /** It owns a key exactly when an attempt of it got the key since its last release. */
  lemma {:induction false} OwnedExactly(states: seq<Table>, steps: seq<Step>, n: nat, tx: TxId, key: Key)
    requires Run(states, steps) && states[0] == EMPTY && n < |states|
    ensures key in states[n].owner && states[n].owner[key] == tx <==> Got(states, steps, n, tx, key)
  {
    if n > 0 {
      OwnedExactly(states, steps, n - 1, tx, key);
      RunKeepsInv(states, steps, n - 1);
      assert Next(states[n - 1], steps[n - 1], states[n - 1 + 1]);
      OwnedAfter(states[n - 1], steps[n - 1], states[n], tx, key);
      GotStep(states, steps, n - 1, tx, key);
    }
  }

  lemma OwnedAfter(s: Table, step: Step, s': Table, tx: TxId, key: Key)
    requires Inv(s) && Next(s, step, s')
    ensures (key in s'.owner && s'.owner[key] == tx) <==>
      Acquires(s, step, tx, key) || (key in s.owner && s.owner[key] == tx && step != ReleaseStep(tx))
  {
    if step.DetectStep? {
      assert s'.owner == s.owner;
    }
  }

  /**
    Every answer of the lock manager, from what happened before: an unknown transaction is refused, a chosen
    victim is terminated, and any other one gets the key unless somebody else has got it and not released it.
  */
  lemma AttemptAnswers(states: seq<Table>, steps: seq<Step>, n: nat, tx: TxId, key: Key)
    requires Run(states, steps) && states[0] == EMPTY && n < |states|
    ensures var answer := AttemptOutcome(states[n], key, tx);
      var known, marked := Known(steps, n, tx), Marked(states, steps, n, tx);
      var taken := exists u :: u != tx && Got(states, steps, n, u, key);
      && (answer == NotRegistered <==> !known)
      && (answer == Terminated <==> known && marked)
      && (answer == MustWait <==> known && !marked && taken)
      && (answer == Acquired <==> known && !marked && !taken)
  {
    RegisteredExactly(states, steps, n, tx);
    MarkedExactly(states, steps, n, tx);
    if key in states[n].owner {
      OwnedExactly(states, steps, n, states[n].owner[key], key);
    }
    forall u | u != tx && Got(states, steps, n, u, key) ensures key in states[n].owner && states[n].owner[key] == u {
      OwnedExactly(states, steps, n, u, key);
    }
  }

  /** A transaction that got a key gets it again at every later attempt, until it is released or chosen as a victim. */
  lemma OwnerGetsKeyAgain(states: seq<Table>, steps: seq<Step>, n: nat, tx: TxId, key: Key)
    requires Run(states, steps) && states[0] == EMPTY && n < |steps| && steps[n] == AttemptStep(tx, key)
    requires Got(states, steps, n, tx, key) && !Marked(states, steps, n, tx)
    ensures AttemptOutcome(states[n], key, tx) == Acquired && states[n + 1].owner == states[n].owner
  {
    RunKeepsInv(states, steps, n);
    OwnedExactly(states, steps, n, tx, key);
    MarkedExactly(states, steps, n, tx);
    assert Next(states[n], steps[n], states[n + 1]);
  }

  // --- deadlocks ------------------------------------------------------------------------------

  /**
    The only steps that can break a cycle: a registered member releases, or a member that was
    not chosen as victim attempts a key owned by somebody other than the one it waits on (which
    a member blocked in a lock wait never does, since it keeps attempting the key it awaits).
  */
  predicate BreaksCycle(s: Table, cycle: seq<TxId>, step: Step) {
    match step
    case ReleaseStep(tx) => tx in cycle
    case AttemptStep(tx, key) =>
      tx in cycle && tx !in s.victims && tx in s.awaiting &&
      OwnerOf(s, key) != OwnerOf(s, s.awaiting[tx])
    case _ => false
  }

  lemma MemberFacts(s: Table, cycle: seq<TxId>, i: nat)
    requires Inv(s) && SimpleCycle(WaitsFor(s), cycle) && i < |cycle|
    ensures cycle[i] in s.awaiting && cycle[i] in s.registered
    ensures s.awaiting[cycle[i]] in s.owner && s.owner[s.awaiting[cycle[i]]] == Successor(cycle, i)
    ensures Successor(cycle, i) in cycle && Successor(cycle, i) != cycle[i]
  {
    assert WaitsOnSuccessor(WaitsFor(s), cycle, i);
    var j := if i + 1 < |cycle| then i + 1 else 0;
    assert WaitsOnSuccessor(WaitsFor(s), cycle, j);
  }

  /** A waits-for cycle survives every step but the ones that break it, and those always do. */
  lemma CycleSurvives(s: Table, step: Step, s': Table, cycle: seq<TxId>)
    requires Inv(s) && Next(s, step, s') && SimpleCycle(WaitsFor(s), cycle)
    ensures SimpleCycle(WaitsFor(s'), cycle) <==> !BreaksCycle(s, cycle, step)
  {
    if BreaksCycle(s, cycle, step) {
      var i :| 0 <= i < |cycle| && cycle[i] == step.tx;
      MemberFacts(s, cycle, i);
      assert !WaitsOnSuccessor(WaitsFor(s'), cycle, i);
    } else {
      forall i | 0 <= i < |cycle| ensures WaitsOnSuccessor(WaitsFor(s'), cycle, i) {
        MemberFacts(s, cycle, i);
        if step.DetectStep? {
          assert s'.owner == s.owner && s'.awaiting == s.awaiting;
        }
      }
    }
  }

  /** A transaction blocked in a lock wait attempts no key but the one it awaits. */
  predicate Blocking(s: Table, step: Step) {
    step.AttemptStep? && step.tx in s.awaiting ==> step.key == s.awaiting[step.tx]
  }

  /** Until a step breaks the cycle, the deadlock stays, its victim stays marked and can acquire nothing. */
  lemma {:induction false} DeadlockPersists(states: seq<Table>, steps: seq<Step>, cycle: seq<TxId>, victim: TxId,
      n: nat)
    requires Run(states, steps) && Inv(states[0]) && n < |states|
    requires SimpleCycle(WaitsFor(states[0]), cycle) && victim in cycle && victim in states[0].victims
    requires forall i :: 0 <= i < n ==> !BreaksCycle(states[i], cycle, steps[i])
    ensures SimpleCycle(WaitsFor(states[n]), cycle) && victim in states[n].victims
    ensures forall key :: AttemptOutcome(states[n], key, victim) == Terminated
    decreases n
  {
    RunKeepsInv(states, steps, n);
    if n > 0 {
      DeadlockPersists(states, steps, cycle, victim, n - 1);
      RunKeepsInv(states, steps, n - 1);
      assert Next(states[n - 1], steps[n - 1], states[n - 1 + 1]);
      CycleSurvives(states[n - 1], steps[n - 1], states[n], cycle);
    }
    VictimIsRegistered(states[n], cycle, victim);
  }

  lemma ReleaseCutsGraph(s: Table, victim: TxId)
    requires Inv(s) && victim in s.registered
    ensures WaitsFor(Release(s, victim)) == WithoutNode(WaitsFor(s), victim, NO_TX)
  {
  }

  /**
    Releasing a member of a deadlock resolves it: no transaction joins a cycle, strictly fewer
    lie on cycles, and every wait that led into the deadlock is finite afterwards.
  */
  lemma ReleaseResolvesDeadlock(s: Table, cycle: seq<TxId>, victim: TxId)
    requires Inv(s) && SimpleCycle(WaitsFor(s), cycle) && victim in cycle
    ensures CycleNodes(WaitsFor(Release(s, victim))) <= CycleNodes(WaitsFor(s)) - {victim}
    ensures |CycleNodes(WaitsFor(Release(s, victim)))| < |CycleNodes(WaitsFor(s))|
    ensures forall tx :: tx in cycle || Reaches(WaitsFor(s), tx, cycle[0]) ==>
      !Endless(WaitsFor(Release(s, victim)), tx)
  {
    VictimIsRegistered(s, cycle, victim);
    ReleaseCutsGraph(s, victim);
    BreakingACycle(WaitsFor(s), cycle, victim, NO_TX);
  }

  /** No release, by anyone and at any time, puts a transaction on a cycle. */
  lemma ReleaseAddsNoCycle(s: Table, tx: TxId)
    requires Inv(s)
    ensures CycleNodes(WaitsFor(Release(s, tx))) <= CycleNodes(WaitsFor(s))
  {
    if tx in s.registered {
      ReleaseCutsGraph(s, tx);
      forall x | x in CycleNodes(WaitsFor(Release(s, tx))) ensures x in CycleNodes(WaitsFor(s)) {
        NoNewCycle(WaitsFor(s), tx, NO_TX, x);
      }
    }
  }
}
