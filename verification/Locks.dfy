/**
  The lock manager itself: seven maps updated in place, two of them used as sets. The inverse
  indexes (keys per transaction, waiters per key) are tied to the abstract table by `Valid`, and
  every method is one step of the system in LockTable.dfy.
*/
module Locks {
  import opened WaitGraph
  import opened LockTable

  ghost predicate IsWaiter(waiters: map<Key, set<TxId>>, key: Key, tx: TxId) {
    key in waiters && tx in waiters[key]
  }

  class LockManager {
    var lockableTxRegistry: set<TxId>
    // True when the callback given at registration is not nil; entries are never removed.
    var onReleaseLock: map<TxId, bool>
    var locks: map<Key, TxId>
    var locksTxIdToKeys: map<TxId, set<Key>>
    var awaitingLocks: map<Key, set<TxId>>
    var awaitingLocksTxIdToKey: map<TxId, Key>
    var terminateForDeadlock: set<TxId>

    ghost function State(): Table
      reads this
    {
      Table(lockableTxRegistry, locks, awaitingLocksTxIdToKey, terminateForDeadlock)
    }

    /** key-to-owner and owner-to-keys are exact inverses, and no key set is empty. */
    ghost predicate OwnersIndexed()
      reads this`locks, this`locksTxIdToKeys
    {
      && (forall key :: key in locks ==> locks[key] in locksTxIdToKeys && key in locksTxIdToKeys[locks[key]])
      && (forall tx, key :: tx in locksTxIdToKeys && key in locksTxIdToKeys[tx] ==> key in locks && locks[key] == tx)
      && (forall tx :: tx in locksTxIdToKeys ==> locksTxIdToKeys[tx] != {})
    }

    /** Every waiting transaction is found among the waiters of its key, and no waiter set is empty. */
    ghost predicate WaitersIndexed()
      reads this`awaitingLocks, this`awaitingLocksTxIdToKey
    {
      && (forall tx :: tx in awaitingLocksTxIdToKey ==> IsWaiter(awaitingLocks, awaitingLocksTxIdToKey[tx], tx))
      && (forall key :: key in awaitingLocks ==> awaitingLocks[key] != {})
    }

    /** The waiter sets hold nobody else: true as long as no transaction abandoned a wait. */
    ghost predicate NoStaleWaiters()
      reads this`awaitingLocks, this`awaitingLocksTxIdToKey
    {
      forall key, tx :: IsWaiter(awaitingLocks, key, tx) ==>
          tx in awaitingLocksTxIdToKey && awaitingLocksTxIdToKey[tx] == key
    }

    ghost predicate Valid()
      reads this
    {
      Inv(State()) && OwnersIndexed() && WaitersIndexed()
    }

    constructor ()
      ensures Valid() && NoStaleWaiters() && State() == EMPTY
    {
      lockableTxRegistry, terminateForDeadlock := {}, {};
      onReleaseLock, locks, locksTxIdToKeys := map[], map[], map[];
      awaitingLocks, awaitingLocksTxIdToKey := map[], map[];
    }

    method RegisterTx(tx: TxId, hasCallback: bool)
      requires Valid() && tx != NO_TX
      modifies this
      ensures Valid() && (old(NoStaleWaiters()) ==> NoStaleWaiters())
      ensures Next(old(State()), RegisterStep(tx), State())
      ensures onReleaseLock == old(onReleaseLock)[tx := hasCallback]
    {
      lockableTxRegistry := lockableTxRegistry + {tx};
      onReleaseLock := onReleaseLock[tx := hasCallback];
    }

    method AddToLock(key: Key, tx: TxId)
      requires OwnersIndexed() && (key in locks ==> locks[key] == tx)
      modifies this`locks, this`locksTxIdToKeys
      ensures OwnersIndexed() && locks == old(locks)[key := tx]
    {
      if tx !in locksTxIdToKeys {
        locksTxIdToKeys := locksTxIdToKeys[tx := {}];
      }
      locks := locks[key := tx];
      locksTxIdToKeys := locksTxIdToKeys[tx := locksTxIdToKeys[tx] + {key}];
    }

    method RemoveFromLock(key: Key, tx: TxId)
      requires OwnersIndexed() && (key in locks ==> locks[key] == tx)
      modifies this`locks, this`locksTxIdToKeys
      ensures OwnersIndexed() && locks == old(locks) - {key}
    {
      if tx in locksTxIdToKeys {
        var keys := locksTxIdToKeys[tx] - {key};
        locksTxIdToKeys := if keys == {} then locksTxIdToKeys - {tx} else locksTxIdToKeys[tx := keys];
      }
      locks := locks - {key};
    }

    method AddAwaiting(key: Key, tx: TxId)
      requires WaitersIndexed()
      modifies this`awaitingLocks, this`awaitingLocksTxIdToKey
      ensures WaitersIndexed() && awaitingLocksTxIdToKey == old(awaitingLocksTxIdToKey)[tx := key]
      ensures forall k, t :: IsWaiter(awaitingLocks, k, t) <==>
        IsWaiter(old(awaitingLocks), k, t) || (k == key && t == tx)
    {
      if key !in awaitingLocks {
        awaitingLocks := awaitingLocks[key := {}];
      }
      awaitingLocks := awaitingLocks[key := awaitingLocks[key] + {tx}];
      awaitingLocksTxIdToKey := awaitingLocksTxIdToKey[tx := key];
    }

    method RemoveAwaiting(key: Key, tx: TxId)
      requires WaitersIndexed()
      modifies this`awaitingLocks, this`awaitingLocksTxIdToKey
      ensures WaitersIndexed() && awaitingLocksTxIdToKey == old(awaitingLocksTxIdToKey) - {tx}
      ensures forall k, t :: IsWaiter(awaitingLocks, k, t) <==>
        IsWaiter(old(awaitingLocks), k, t) && !(k == key && t == tx)
    {
      if key in awaitingLocks {
        var waiters := awaitingLocks[key] - {tx};
        assert forall t :: t in waiters <==> t in awaitingLocks[key] && t != tx;
        awaitingLocks := if waiters == {} then awaitingLocks - {key} else awaitingLocks[key := waiters];
      }
      awaitingLocksTxIdToKey := awaitingLocksTxIdToKey - {tx};
    }

    /** One pass of the retry loop in AcquireLock. */
    method AttemptAcquire(key: Key, tx: TxId) returns (outcome: Outcome)
      requires Valid()
      modifies this
      ensures Valid() && onReleaseLock == old(onReleaseLock)
      ensures Next(old(State()), AttemptStep(tx, key), State())
      ensures outcome == AttemptOutcome(old(State()), key, tx)
      // No stale waiter appears while transactions only attempt the key they already await.
      ensures old(NoStaleWaiters()) && Blocking(old(State()), AttemptStep(tx, key)) ==> NoStaleWaiters()
    {
      if tx !in lockableTxRegistry {
        return NotRegistered;
      }
      if tx in terminateForDeadlock {
        return Terminated;
      }
      ghost var before := State();
      if key !in locks || tx == locks[key] {
        AddToLock(key, tx);
        RemoveAwaiting(key, tx);
        outcome := Acquired;
      } else {
        AddAwaiting(key, tx);
        outcome := MustWait;
      }
      assert State() == Attempt(before, key, tx);
      StepKeepsInv(before, AttemptStep(tx, key), State());
    }

    method ReleaseOwned(tx: TxId)
      requires OwnersIndexed()
      modifies this`locks, this`locksTxIdToKeys
      ensures OwnersIndexed() && locks == old(locks) - OwnedBy(old(State()), tx)
    {
      var rest := if tx in locksTxIdToKeys then locksTxIdToKeys[tx] else {};
      ghost var keys := rest;
      assert keys == OwnedBy(State(), tx);
      while rest != {}
        invariant rest <= keys
        invariant OwnersIndexed()
        invariant locks == old(locks) - (keys - rest)
        decreases rest
      {
        var key :| key in rest;
        RemoveFromLock(key, tx);
        rest := rest - {key};
      }
      assert keys - rest == keys;
    }

    method ReleaseLocksAndUnregisterTx(tx: TxId) returns (callbackRan: bool)
      requires Valid()
      modifies this
      ensures Valid() && (old(NoStaleWaiters()) ==> NoStaleWaiters())
      ensures Next(old(State()), ReleaseStep(tx), State())
      ensures onReleaseLock == old(onReleaseLock)
      ensures callbackRan <==> tx in old(lockableTxRegistry) && tx in onReleaseLock && onReleaseLock[tx]
    {
      if tx !in lockableTxRegistry {
        return false;
      }
      ghost var before := State();
      ReleaseOwned(tx);
      var awaited := if tx in awaitingLocksTxIdToKey then awaitingLocksTxIdToKey[tx] else [];
      RemoveAwaiting(awaited, tx);
      terminateForDeadlock := terminateForDeadlock - {tx};
      lockableTxRegistry := lockableTxRegistry - {tx};
      callbackRan := tx in onReleaseLock && onReleaseLock[tx];
      assert State() == Release(before, tx);
      StepKeepsInv(before, ReleaseStep(tx), State());
    }

    function KeyCount(tx: TxId): nat
      reads this
    {
      if tx in locksTxIdToKeys then |locksTxIdToKeys[tx]| else 0
    }

    lemma KeyCountIsOwned(tx: TxId)
      requires OwnersIndexed()
      ensures KeyCount(tx) == |OwnedBy(State(), tx)|
    {
      if tx in locksTxIdToKeys {
        assert locksTxIdToKeys[tx] == OwnedBy(State(), tx);
      } else {
        assert OwnedBy(State(), tx) == {};
      }
    }

    method ChooseVictim(cycle: seq<TxId>) returns (victim: TxId)
      requires OwnersIndexed() && |cycle| > 0
      ensures FewestKeys(State(), cycle, victim) && victim in cycle
      ensures forall tx :: tx in cycle ==>
        |OwnedBy(State(), victim)| <= |OwnedBy(State(), tx)| || MAX_INT <= |OwnedBy(State(), tx)|
    {
      victim := cycle[0];
      var fewest := MAX_INT;
      for i := 0 to |cycle|
        invariant victim in cycle && fewest <= MAX_INT
        invariant fewest == MAX_INT || fewest == KeyCount(victim)
        invariant forall j :: 0 <= j < i ==> fewest <= KeyCount(cycle[j])
      {
        if KeyCount(cycle[i]) < fewest {
          fewest := KeyCount(cycle[i]);
          victim := cycle[i];
        }
      }
      forall tx | tx in cycle
        ensures |OwnedBy(State(), victim)| <= |OwnedBy(State(), tx)| || MAX_INT <= |OwnedBy(State(), tx)|
      {
        KeyCountIsOwned(tx);
        KeyCountIsOwned(victim);
      }
    }

    method DetectDeadlock(start: TxId) returns (victim: TxId, detected: bool)
      requires Valid()
      modifies this`terminateForDeadlock
      ensures Valid()
      ensures Next(old(State()), DetectStep(start), State())
      ensures detected <==> Endless(WaitsFor(State()), start)
      ensures detected ==> victim in CycleNodes(WaitsFor(State())) && victim in State().victims
      ensures !detected ==> victim == NO_TX
    {
      var graph := map tx | tx in awaitingLocksTxIdToKey ::
        if awaitingLocksTxIdToKey[tx] in locks then locks[awaitingLocksTxIdToKey[tx]] else NO_TX;
      assert graph == WaitsFor(State());
      var cycle, found := DetectDeadlockCycle(start, graph);
      if !found {
        return NO_TX, false;
      }
      victim := ChooseVictim(cycle);
      ghost var before := State();
      DetectMarks(before, start, cycle, victim);
      terminateForDeadlock := terminateForDeadlock + {victim};
      assert State() == before.(victims := before.victims + {victim});
      StepKeepsInv(before, DetectStep(start), State());
      WaitsForIgnoresVictims(before, State().victims);
      return victim, true;
    }
  }
}
