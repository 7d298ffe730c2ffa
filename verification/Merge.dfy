/** The k-way merge over sorted sources, newest source first. */
module Merge {
  import opened Options
  import opened Bytes

  /** A nil value is a tombstone. A nil key compares as the empty key, but is not the same to the search. */
  datatype Item = Item(key: Bytes, value: Option<Bytes>, nilKey: bool := false)

  /** Which keys a search is after: all of them, those past the current key, or those from a target on. */
  datatype Bound = All | After(key: Bytes) | From(key: Bytes)

  predicate Admits(b: Bound, key: Bytes) {
    match b
    case All => true
    case After(k) => !AtMost(key, k)
    case From(k) => !Less(key, k)
  }

  lemma AdmitsUp(b: Bound, low: Bytes, high: Bytes)
    requires Admits(b, low) && AtMost(low, high)
    ensures Admits(b, high)
  {
    if b != All {
      LessTotal(b.key, low);
      LessAsymmetric(high, b.key);
      LessIrreflexive(high);
      LessIrreflexive(b.key);
      AtMostTransitive(b.key, low, high);
    }
  }

  /** Keys ascend; the versions of one key stand together, the newest first. */
  ghost predicate Ordered(items: seq<Item>) {
    && (forall i, j :: 0 <= i < j < |items| ==> AtMost(items[i].key, items[j].key))
    && forall i :: 0 <= i < |items| && items[i].nilKey ==> items[i].key == []
  }

  ghost predicate Strict(items: seq<Item>) {
    forall i, j :: 0 <= i < j < |items| ==> Less(items[i].key, items[j].key)
  }

  // --- what a merge must answer: the first version in the earliest source that has the key -------------------

  ghost function Find(items: seq<Item>, key: Bytes): Option<Item> {
    if items == [] then None else if items[0].key == key then Some(items[0]) else Find(items[1..], key)
  }

  ghost function Lookup(lists: seq<seq<Item>>, key: Bytes): Option<Item> {
    if lists == [] then None
    else
      var n := |lists| - 1;
      var earlier := Lookup(lists[..n], key);
      if earlier.Some? then earlier else Find(lists[n], key)
  }

  lemma {:induction false} FindMeaning(items: seq<Item>, key: Bytes)
    ensures Find(items, key).None? <==> forall x :: x in items ==> x.key != key
    ensures Find(items, key).Some? ==> Find(items, key).value in items && Find(items, key).value.key == key
  {
    if items != [] && items[0].key != key {
      FindMeaning(items[1..], key);
      assert forall x :: x in items <==> x == items[0] || x in items[1..];
    }
  }

  lemma {:induction false} FindAt(items: seq<Item>, j: nat)
    requires j < |items| && forall m :: 0 <= m < j ==> items[m].key != items[j].key
    ensures Find(items, items[j].key) == Some(items[j])
  {
    if j > 0 {
      FindAt(items[1..], j - 1);
    }
  }

  /** Lookup is the first version of the key in the earliest list that holds the key. */
  lemma {:induction false} LookupMeaning(lists: seq<seq<Item>>, i: nat, j: nat)
    requires i < |lists| && j < |lists[i]|
    requires forall m, x :: 0 <= m < i && x in lists[m] ==> x.key != lists[i][j].key
    requires forall m :: 0 <= m < j ==> lists[i][m].key != lists[i][j].key
    ensures Lookup(lists, lists[i][j].key) == Some(lists[i][j])
  {
    var n := |lists| - 1;
    var key := lists[i][j].key;
    if i < n {
      LookupMeaning(lists[..n], i, j);
    } else {
      LookupNone(lists[..n], key);
      FindAt(lists[n], j);
    }
  }

  lemma {:induction false} LookupMember(lists: seq<seq<Item>>, key: Bytes)
    ensures Lookup(lists, key).Some? ==> exists i :: 0 <= i < |lists| && Lookup(lists, key).value in lists[i]
  {
    if lists != [] {
      var n := |lists| - 1;
      LookupMember(lists[..n], key);
      FindMeaning(lists[n], key);
      if Lookup(lists[..n], key).Some? {
        var i :| 0 <= i < n && Lookup(lists[..n], key).value in lists[..n][i];
        assert Lookup(lists, key).value in lists[i];
      }
    }
  }

  /** What stands in front is answered first. */
  lemma {:induction false} LookupConcat(a: seq<seq<Item>>, b: seq<seq<Item>>, key: Bytes)
    ensures Lookup(a + b, key) == if Lookup(a, key).Some? then Lookup(a, key) else Lookup(b, key)
  {
    if b == [] {
      assert a + b == a;
    } else {
      var n := |b| - 1;
      LookupConcat(a, b[..n], key);
      assert (a + b)[..|a + b| - 1] == a + b[..n];
    }
  }

  lemma {:induction false} LookupNone(lists: seq<seq<Item>>, key: Bytes)
    ensures Lookup(lists, key).None? <==> forall m, x :: 0 <= m < |lists| && x in lists[m] ==> x.key != key
    ensures Lookup(lists, key).Some? ==> Lookup(lists, key).value.key == key
  {
    if lists != [] {
      var n := |lists| - 1;
      LookupNone(lists[..n], key);
      FindMeaning(lists[n], key);
    }
  }

  // --- the smallest admitted key ------------------------------------------------------------------------------

  ghost function FirstIn(items: seq<Item>, b: Bound): Option<Item> {
    if items == [] then None else if Admits(b, items[0].key) then Some(items[0]) else FirstIn(items[1..], b)
  }

  function Better(best: Option<Item>, candidate: Option<Item>): Option<Item> {
    if best.None? || (candidate.Some? && Less(candidate.value.key, best.value.key)) then candidate else best
  }

  ghost function Smallest(lists: seq<seq<Item>>, b: Bound): Option<Item> {
    if lists == [] then None
    else Better(Smallest(lists[..|lists| - 1], b), FirstIn(lists[|lists| - 1], b))
  }

  /** `best` is the answer to a search of something that answers `get`. */
  ghost predicate Least(get: Bytes -> Option<Item>, b: Bound, best: Option<Item>) {
    match best
    case None => forall key :: Admits(b, key) ==> get(key).None?
    case Some(m) =>
      && Admits(b, m.key) && get(m.key) == Some(m)
      && forall key :: Admits(b, key) && get(key).Some? ==> AtMost(m.key, key)
  }

  ghost function Finder(items: seq<Item>): Bytes -> Option<Item> { key => Find(items, key) }

  ghost function Lookups(lists: seq<seq<Item>>): Bytes -> Option<Item> { key => Lookup(lists, key) }

  lemma {:induction false} FirstInIsLeast(items: seq<Item>, b: Bound)
    requires Ordered(items)
    ensures Least(Finder(items), b, FirstIn(items, b))
  {
    if items == [] {
    } else if Admits(b, items[0].key) {
      forall key | Find(items, key).Some? ensures AtMost(items[0].key, key) {
        FindMeaning(items, key);
        var j :| 0 <= j < |items| && items[j].key == key;
        assert j > 0 ==> AtMost(items[0].key, items[j].key);
      }
    } else {
      FirstInIsLeast(items[1..], b);
      assert forall key :: Admits(b, key) ==> Finder(items)(key) == Finder(items[1..])(key);
    }
  }

  lemma LeastOfTwo(lists: seq<seq<Item>>, n: nat, b: Bound, best: Option<Item>, candidate: Option<Item>)
    requires n + 1 == |lists|
    requires Least(Lookups(lists[..n]), b, best) && Least(Finder(lists[n]), b, candidate)
    ensures Least(Lookups(lists), b, Better(best, candidate))
  {
    var r := Better(best, candidate);
    forall key | Admits(b, key) && Lookup(lists, key).Some? ensures r.Some? && AtMost(r.value.key, key) {
      assert Lookups(lists[..n])(key).Some? || Finder(lists[n])(key).Some?;
      if best.Some? && candidate.Some? {
        LessTotal(best.value.key, candidate.value.key);
        if Lookups(lists[..n])(key).Some? {
          AtMostTransitive(r.value.key, best.value.key, key);
        } else {
          AtMostTransitive(r.value.key, candidate.value.key, key);
        }
      }
    }
    if r.Some? {
      assert r == best ==> Lookups(lists[..n])(r.value.key) == best;
      if best.Some? && r != best {
        LessAsymmetric(r.value.key, best.value.key);
        LessIrreflexive(r.value.key);
        assert Lookups(lists[..n])(r.value.key).None?;
      }
      assert r != best ==> Finder(lists[n])(r.value.key) == candidate;
    }
  }

  /** The running minimum of the sources' first admitted items is the smallest admitted key, answered as Lookup does. */
  lemma {:induction false} SmallestIsLeast(lists: seq<seq<Item>>, b: Bound)
    requires forall i :: 0 <= i < |lists| ==> Ordered(lists[i])
    ensures Least(Lookups(lists), b, Smallest(lists, b))
  {
    if lists != [] {
      var n := |lists| - 1;
      SmallestIsLeast(lists[..n], b);
      FirstInIsLeast(lists[n], b);
      LeastOfTwo(lists, n, b, Smallest(lists[..n], b), FirstIn(lists[n], b));
    }
  }

  lemma {:induction false} FirstInAt(items: seq<Item>, pos: nat, b: Bound)
    requires pos <= |items| && forall i :: 0 <= i < pos ==> !Admits(b, items[i].key)
    requires pos < |items| ==> Admits(b, items[pos].key)
    ensures FirstIn(items, b) == if pos < |items| then Some(items[pos]) else None
    decreases pos
  {
    if pos > 0 {
      FirstInAt(items[1..], pos - 1, b);
    }
  }

  // --- sources ----------------------------------------------------------------------------------------------

  class Source {
    const items: seq<Item>
    var pos: nat

    constructor (items: seq<Item>)
      ensures this.items == items && pos == |items|
    {
      this.items, pos := items, |items|;
    }

    predicate Valid()
      reads this
    {
      pos < |items|
    }

    /** Nothing the search is after lies behind the current position. */
    ghost predicate Passed(b: Bound)
      reads this
    {
      pos <= |items| && forall i :: 0 <= i < pos ==> !Admits(b, items[i].key)
    }

    /** Moreover, the current item, if any, is one the search is after: its first. */
    ghost predicate Found(b: Bound)
      reads this
    {
      Passed(b) && (Valid() ==> Admits(b, items[pos].key))
    }

    method SeekToFirst()
      modifies this
      ensures pos == 0
    {
      pos := 0;
    }

    method Next() returns (ok: bool)
      modifies this
      ensures pos == (if old(pos) < |items| then old(pos) + 1 else old(pos)) && ok == Valid()
    {
      if Valid() {
        pos := pos + 1;
      }
      ok := Valid();
    }

    /** The first item whose key is at or past the target. */
    method Seek(target: Bytes) returns (ok: bool)
      modifies this
      ensures Found(From(target)) && ok == Valid()
    {
      pos := 0;
      while Valid() && Less(items[pos].key, target)
        invariant Passed(From(target))
        decreases |items| - pos
      {
        pos := pos + 1;
      }
      ok := Valid();
    }

    /** Where a search for these keys may find it: after a Seek, at the first of them already. */
    ghost predicate Ready(b: Bound)
      reads this
    {
      Passed(b) && (b.From? ==> Found(b))
    }

    /** Moves to the first key that the search is after. */
    method Skip(b: Bound)
      requires Ready(b)
      modifies this
      ensures Found(b)
    {
      if b.After? && Valid() && AtMost(items[pos].key, b.key) {
        SkipPast(b.key);
      }
    }

    /** Moves past every key up to the previous one. */
    method SkipPast(prev: Bytes)
      requires Passed(After(prev))
      modifies this
      ensures Found(After(prev))
    {
      while Valid() && AtMost(items[pos].key, prev)
        invariant Passed(After(prev))
        decreases |items| - pos
      {
        var ok := Next();
        if !ok {
          break;
        }
      }
    }
  }

  ghost function Lists(sources: seq<Source>): seq<seq<Item>> {
    seq(|sources|, i requires 0 <= i < |sources| => sources[i].items)
  }

  // --- how the two searches choose -------------------------------------------------------------------------

  /** The newest version of the empty key has a nil slice for its key. */
  ghost predicate NilFirst(lists: seq<seq<Item>>) {
    Lookup(lists, []).Some? && Lookup(lists, []).value.nilKey
  }

  /** A search that can meet no nil key where it matters. */
  ghost predicate Plain(lists: seq<seq<Item>>, b: Bound) { Admits(b, []) ==> !NilFirst(lists) }

  ghost predicate AllOrdered(lists: seq<seq<Item>>) {
    forall i :: 0 <= i < |lists| ==> Ordered(lists[i])
  }

  /** The running minimum, and the keys seen from newer sources. */
  datatype Seen = Seen(best: Option<Item>, keys: set<Bytes>)

  /** A nil minimum counts as none. */
  function Take(a: Seen, x: Item): Seen {
    if x.key in a.keys then a
    else
      var least := a.best.None? || a.best.value.nilKey || Less(x.key, a.best.value.key);
      Seen(if least then Some(x) else a.best, a.keys + {x.key})
  }

  ghost function Collected(lists: seq<seq<Item>>, b: Bound): Seen {
    if lists == [] then Seen(None, {})
    else
      var before, first := Collected(lists[..|lists| - 1], b), FirstIn(lists[|lists| - 1], b);
      if first.Some? then Take(before, first.value) else before
  }

  /** What a search answers: by index, or with the keys seen. */
  ghost function Answer(lists: seq<seq<Item>>, b: Bound, byIndex: bool): Option<Item> {
    if byIndex then Smallest(lists, b) else Collected(lists, b).best
  }

  lemma AdmitsEmpty(b: Bound, key: Bytes)
    requires Admits(b, [])
    ensures Admits(b, key)
  {
    AdmitsUp(b, [], key);
  }

  lemma EmptyFirst(items: seq<Item>, b: Bound)
    requires Ordered(items) && Admits(b, [])
    ensures FirstIn(items, b) == FirstIn(items, All) == if items == [] then None else Some(items[0])
    ensures Find(items, []) == if items != [] && items[0].key == [] then Some(items[0]) else None
  {
    if items != [] {
      AdmitsEmpty(b, items[0].key);
      if items[0].key != [] {
        FindMeaning(items, []);
        assert forall j :: 0 < j < |items| ==> AtMost(items[0].key, items[j].key);
      }
    }
  }

  lemma PlainPrefix(lists: seq<seq<Item>>, b: Bound)
    requires lists != [] && Plain(lists, b)
    ensures Plain(lists[..|lists| - 1], b)
  {
  }

  lemma LeastIsNotNil(lists: seq<seq<Item>>, b: Bound)
    requires AllOrdered(lists) && Plain(lists, b) && Smallest(lists, b).Some?
    ensures !Smallest(lists, b).value.nilKey
  {
    SmallestIsLeast(lists, b);
    var m := Smallest(lists, b).value;
    assert Lookups(lists)(m.key) == Some(m);
    NilIsEmpty(lists, m.key);
  }

  lemma NilIsEmpty(lists: seq<seq<Item>>, key: Bytes)
    requires AllOrdered(lists)
    ensures Lookup(lists, key).Some? && Lookup(lists, key).value.nilKey ==> key == []
    ensures Lookup(lists, key).Some? ==> exists i :: 0 <= i < |lists| && Lookup(lists, key).value in lists[i]
  {
    LookupMember(lists, key);
    LookupNone(lists, key);
  }

  /** Without a nil key the check for keys seen in newer sources never changes the running minimum. */
  lemma {:induction false} SeenIsSmallest(lists: seq<seq<Item>>, b: Bound)
    requires AllOrdered(lists) && Plain(lists, b)
    ensures Collected(lists, b).best == Smallest(lists, b)
    ensures forall key :: key in Collected(lists, b).keys ==>
      Smallest(lists, b).Some? && AtMost(Smallest(lists, b).value.key, key)
  {
    if lists != [] {
      var n := |lists| - 1;
      PlainPrefix(lists, b);
      SeenIsSmallest(lists[..n], b);
      if Smallest(lists[..n], b).Some? {
        LeastIsNotNil(lists[..n], b);
      }
      if FirstIn(lists[n], b).Some? {
        TakeIsBetter(Collected(lists[..n], b), FirstIn(lists[n], b).value);
      }
    }
  }

  lemma TakeIsBetter(a: Seen, x: Item)
    requires a.best.Some? ==> !a.best.value.nilKey
    requires forall key :: key in a.keys ==> a.best.Some? && AtMost(a.best.value.key, key)
    ensures Take(a, x).best == Better(a.best, Some(x))
    ensures forall key :: key in Take(a, x).keys ==> AtMost(Take(a, x).best.value.key, key)
  {
    if a.best.Some? {
      var best := a.best.value;
      LessTotal(x.key, best.key);
      LessAsymmetric(x.key, best.key);
      LessIrreflexive(x.key);
      if x.key !in a.keys && Less(x.key, best.key) {
        forall key | key in a.keys ensures AtMost(x.key, key) {
          AtMostTransitive(x.key, best.key, key);
        }
      }
    }
  }

  /** The search with the keys seen answers an empty key only with its newest version. */
  lemma {:induction false} SeenEmpty(lists: seq<seq<Item>>, b: Bound)
    requires AllOrdered(lists) && Admits(b, [])
    ensures var a := Collected(lists, b);
      && ([] in a.keys <==> Lookup(lists, []).Some?) && (a.keys != {} ==> a.best.Some?)
      && (a.best.Some? && a.best.value.key == [] ==> Lookup(lists, []) == a.best)
      && (a.best.Some? && a.best.value.nilKey ==> a.best.value.key == [])
  {
    if lists != [] {
      var n := |lists| - 1;
      SeenEmpty(lists[..n], b);
      EmptyFirst(lists[n], b);
    }
  }

  /** Unless the newest version of the empty key is nil, either search answers the least key as Lookup does. */
  lemma AnswerIsLeast(lists: seq<seq<Item>>, b: Bound, byIndex: bool)
    requires AllOrdered(lists) && (byIndex || Plain(lists, b))
    ensures Least(Lookups(lists), b, Answer(lists, b, byIndex))
  {
    SmallestIsLeast(lists, b);
    if !byIndex {
      SeenIsSmallest(lists, b);
    }
  }

  /** And if it is nil, either search answers with that version or misses the empty key. */
  lemma AnswerWithNil(lists: seq<seq<Item>>, b: Bound, byIndex: bool)
    requires AllOrdered(lists) && !Plain(lists, b)
    ensures Answer(lists, b, byIndex).Some?
    ensures Answer(lists, b, byIndex).value.key == [] ==> Answer(lists, b, byIndex) == Lookup(lists, [])
    ensures byIndex ==> Answer(lists, b, byIndex) == Lookup(lists, [])
  {
    SeenEmpty(lists, b);
    SmallestIsLeast(lists, b);
    assert Lookups(lists)([]).Some?;
    var m := Smallest(lists, b).value;
    assert AtMost(m.key, []) && Lookups(lists)(m.key) == Some(m);
  }

  /** A nil answer is the newest version of the empty key, whatever the search was after. */
  lemma NilAnswer(lists: seq<seq<Item>>, b: Bound, byIndex: bool)
    requires AllOrdered(lists) && Answer(lists, b, byIndex).Some? && Answer(lists, b, byIndex).value.nilKey
    ensures !Plain(lists, b)
  {
    if Plain(lists, b) {
      if !byIndex {
        SeenIsSmallest(lists, b);
      }
      LeastIsNotNil(lists, b);
    }
  }

  /** A search that admits the empty key is one for all keys. */
  lemma {:induction false} OpenSearch(lists: seq<seq<Item>>, b: Bound)
    requires AllOrdered(lists) && Admits(b, [])
    ensures Smallest(lists, b) == Smallest(lists, All) && Collected(lists, b) == Collected(lists, All)
  {
    if lists != [] {
      OpenSearch(lists[..|lists| - 1], b);
      EmptyFirst(lists[|lists| - 1], b);
    }
  }

  /** What the source at its position offers to the search. */
  lemma Offers(sources: seq<Source>, i: nat, b: Bound)
    requires i < |sources| && sources[i].Found(b)
    ensures var lists, s := Lists(sources), sources[i];
      var first := if s.Valid() then Some(s.items[s.pos]) else None;
      && Smallest(lists[..i + 1], b) == Better(Smallest(lists[..i], b), first)
      && Collected(lists[..i + 1], b)
         == if first.Some? then Take(Collected(lists[..i], b), first.value) else Collected(lists[..i], b)
  {
    var lists := Lists(sources);
    assert lists[..i + 1][..i] == lists[..i] && lists[..i + 1][i] == sources[i].items;
    FirstInAt(sources[i].items, sources[i].pos, b);
  }

  class HierarchicalIterator {
    const sources: seq<Source>
    /** Of the two iterators of this name: the one that searches by index, or the one that keeps the keys seen. */
    const byIndex: bool
    var key: Option<Bytes>
    var value: Option<Bytes>
    var valid: bool

    ghost predicate WellFormed() {
      && (forall i, j :: 0 <= i < j < |sources| ==> sources[i] != sources[j])
      && AllOrdered(Lists(sources))
    }

    ghost function Contents(): Bytes -> Option<Item> { Lookups(Lists(sources)) }

    function KeyBytes(): Bytes
      reads this
    {
      if key.Some? then key.value else []
    }

    ghost function Current(): Option<Item>
      reads this
    {
      if valid then Some(Item(KeyBytes(), value, key.None?)) else None
    }

    ghost predicate AllPassed(b: Bound)
      reads sources
    {
      forall i :: 0 <= i < |sources| ==> sources[i].Passed(b)
    }

    /** At a nil key the sources stand where they were when it was found. */
    ghost predicate Valid()
      reads this, sources
    {
      && WellFormed()
      && (valid ==> AllPassed(if key.Some? then After(key.value) else All))
      && (valid && key.None? ==>
          NilFirst(Lists(sources)) && Current() == Answer(Lists(sources), All, byIndex))
    }

    /**
      The least key the search is after, as the newest source holds it; but if the newest version of the
      empty key is nil, it stands at that one or has missed it.
    */
    ghost predicate Answers(b: Bound)
      reads this
    {
      && (byIndex || Plain(Lists(sources), b) ==> Least(Contents(), b, Current()))
      && (!Plain(Lists(sources), b) ==> valid && (key.None? || (!byIndex && key.value != [])))
    }

    constructor (sources: seq<Source>, byIndex: bool)
      requires forall i, j :: 0 <= i < j < |sources| ==> sources[i] != sources[j]
      requires forall i :: 0 <= i < |sources| ==> Ordered(sources[i].items)
      ensures Valid() && !valid && this.sources == sources && this.byIndex == byIndex
    {
      this.sources, this.byIndex, key, value, valid := sources, byIndex, None, None, false;
    }

    lemma AnswerFacts(b: Bound)
      requires WellFormed()
      ensures var lists, best := Lists(sources), Answer(Lists(sources), b, byIndex);
        && (byIndex || Plain(lists, b) ==> Least(Contents(), b, best))
        && (best.Some? && best.value.nilKey ==>
            !Plain(lists, b) && best.value.key == [] && best == Answer(lists, All, byIndex))
        && (!Plain(lists, b) ==>
            best.Some? && (byIndex || best.value.key == [] ==> best.value.key == [] && best.value.nilKey))
    {
      var lists, best := Lists(sources), Answer(Lists(sources), b, byIndex);
      if byIndex || Plain(lists, b) {
        AnswerIsLeast(lists, b, byIndex);
      }
      if best.Some? && best.value.nilKey {
        NilAnswer(lists, b, byIndex);
        OpenSearch(lists, b);
        SeenEmpty(lists, b);
      }
      if !Plain(lists, b) {
        AnswerWithNil(lists, b, byIndex);
        LookupNone(lists, []);
      }
    }

    /** What was behind the sources for the bound is behind them for the key found. */
    lemma BehindAnswer(b: Bound)
      requires WellFormed() && AllPassed(b) && Answer(Lists(sources), b, byIndex).Some?
      ensures var best := Answer(Lists(sources), b, byIndex).value;
        AllPassed(if best.nilKey then All else After(best.key))
    {
      var best := Answer(Lists(sources), b, byIndex).value;
      AnswerFacts(b);
      forall i | 0 <= i < |sources|
        ensures sources[i].Passed(if best.nilKey then All else After(best.key))
      {
        var s := sources[i];
        assert s.Passed(b);
        if Admits(b, []) {
          assert s.pos > 0 ==> !Admits(b, s.items[0].key);
          AdmitsEmpty(b, if s.pos > 0 then s.items[0].key else []);
        } else {
          forall m | 0 <= m < s.pos ensures AtMost(s.items[m].key, best.key) {
            LessTotal(s.items[m].key, best.key);
            if Less(best.key, s.items[m].key) {
              AdmitsUp(b, best.key, s.items[m].key);
            }
          }
        }
      }
    }

    method Settle(best: Option<Item>, ghost b: Bound) returns (ok: bool)
      requires WellFormed() && AllPassed(b) && best == Answer(Lists(sources), b, byIndex)
      modifies this
      ensures Valid() && ok == valid && Answers(b) && Current() == best
    {
      AnswerFacts(b);
      valid := best.Some?;
      if valid {
        BehindAnswer(b);
        key, value := if best.value.nilKey then None else Some(best.value.key), best.value.value;
      }
      return valid;
    }

    method SeekToFirst()
      requires Valid()
      modifies this, sources
      ensures Valid() && Answers(All)
    {
      for i := 0 to |sources|
        invariant forall j :: 0 <= j < i ==> sources[j].pos == 0
      {
        sources[i].SeekToFirst();
      }
      var ok := FindNextUniqueKey(None);
    }

    /** The smallest key past the previous one (any key when there is none), with its newest value. */
    method FindNextUniqueKey(prev: Option<Bytes>) returns (ok: bool)
      requires WellFormed() && AllPassed(if prev.Some? then After(prev.value) else All)
      modifies this, sources
      ensures Valid() && ok == valid
      ensures Answers(if prev.Some? then After(prev.value) else All)
      ensures prev.None? ==> Current() == Answer(Lists(sources), All, byIndex)
    {
      ok := Search(if prev.Some? then After(prev.value) else All);
    }

    /** Each source may be anywhere before the first key the search is after; after a Seek it is there already. */
    ghost predicate AllReady(b: Bound)
      reads sources
    {
      forall i :: 0 <= i < |sources| ==> sources[i].Ready(b)
    }

    method Search(b: Bound) returns (ok: bool)
      requires WellFormed() && AllReady(b)
      modifies this, sources
      ensures Valid() && ok == valid && Answers(b) && Current() == Answer(Lists(sources), b, byIndex)
    {
      var best;
      if byIndex {
        best := SearchByIndex(b);
      } else {
        best := SearchSeen(b);
      }
      ok := Settle(best, b);
    }

    method SkipAt(b: Bound, i: nat)
      requires WellFormed() && AllReady(b) && i < |sources|
      modifies sources[i]
      ensures AllReady(b) && sources[i].Found(b)
    {
      sources[i].Skip(b);
    }

    /** A key already seen in a newer source is passed over. */
    method SearchSeen(b: Bound) returns (best: Option<Item>)
      requires WellFormed() && AllReady(b)
      modifies sources
      ensures AllPassed(b) && best == Collected(Lists(sources), b).best
    {
      ghost var lists := Lists(sources);
      var a := Seen(None, {});
      for i := 0 to |sources|
        invariant AllReady(b) && a == Collected(lists[..i], b)
      {
        SkipAt(b, i);
        var s := sources[i];
        Offers(sources, i, b);
        if s.Valid() && Admits(b, s.items[s.pos].key) {
          a := Take(a, s.items[s.pos]);
        }
      }
      assert lists[..|sources|] == lists;
      return a.best;
    }

    ghost predicate Shows(i: nat, key: Bytes)
      requires i < |sources|
      reads sources
    {
      sources[i].Valid() && sources[i].items[sources[i].pos].key == key
    }

    /** The value of the newest of the first sources that shows the key, if one does. */
    method NewestValue(best: Item, index: nat) returns (value: Option<Bytes>)
      requires index <= |sources|
      ensures (forall j :: 0 <= j < index ==> !Shows(j, best.key)) ==> value == best.value
      ensures forall j :: 0 <= j < index && Shows(j, best.key) && (forall m :: 0 <= m < j ==> !Shows(m, best.key)) ==>
        value == sources[j].items[sources[j].pos].value
    {
      for i := 0 to index
        invariant forall j :: 0 <= j < i ==> !Shows(j, best.key)
      {
        var s := sources[i];
        if s.Valid() && s.items[s.pos].key == best.key {
          assert Shows(i, best.key);
          return s.items[s.pos].value;
        }
      }
      return best.value;
    }

    /** The first `n` sources show no key below `best`, and those before `index` only keys above it. */
    ghost predicate FirstLeast(n: nat, best: Option<Item>, index: nat)
      requires n <= |sources|
      reads sources
    {
      && (best.None? ==> forall j :: 0 <= j < n ==> !sources[j].Valid())
      && (best.Some? ==> index < n && forall j :: 0 <= j < n && sources[j].Valid() ==>
          var key := sources[j].items[sources[j].pos].key;
          AtMost(best.value.key, key) && (j < index ==> Less(best.value.key, key)))
    }

    lemma FirstLeastStep(n: nat, best: Option<Item>, index: nat)
      requires n < |sources| && FirstLeast(n, best, index)
      ensures var s := sources[n];
        if !s.Valid() then FirstLeast(n + 1, best, index)
        else if best.None? || Less(s.items[s.pos].key, best.value.key) then FirstLeast(n + 1, Some(s.items[s.pos]), n)
        else FirstLeast(n + 1, best, index)
    {
      var s := sources[n];
      if s.Valid() && best.Some? {
        var x := s.items[s.pos];
        LessTotal(x.key, best.value.key);
        if Less(x.key, best.value.key) {
          forall j | 0 <= j < n && sources[j].Valid() ensures Less(x.key, sources[j].items[sources[j].pos].key) {
            AtMostTransitive(x.key, best.value.key, sources[j].items[sources[j].pos].key);
          }
        }
      }
    }

    method PickAt(b: Bound, i: nat, best: Option<Item>, index: nat) returns (best': Option<Item>, index': nat)
      requires i < |sources| && sources[i].Found(b)
      requires best == Smallest(Lists(sources)[..i], b) && FirstLeast(i, best, index)
      ensures best' == Smallest(Lists(sources)[..i + 1], b) && FirstLeast(i + 1, best', index')
    {
      var s := sources[i];
      Offers(sources, i, b);
      FirstLeastStep(i, best, index);
      best', index' := best, index;
      if s.Valid() && Admits(b, s.items[s.pos].key) {
        if best.None? || Less(s.items[s.pos].key, best.value.key) {
          best', index' := Some(s.items[s.pos]), i;
        }
      }
    }

    /** Brings every source to the first key the search is after, and takes the first of the smallest. */
    method FindLeast(b: Bound) returns (best: Option<Item>, index: nat)
      requires WellFormed() && AllReady(b)
      modifies sources
      ensures AllReady(b) && best == Smallest(Lists(sources), b) && FirstLeast(|sources|, best, index)
    {
      ghost var lists := Lists(sources);
      index, best := 0, None;
      for i := 0 to |sources|
        invariant AllReady(b) && best == Smallest(lists[..i], b) && FirstLeast(i, best, index)
      {
        SkipAt(b, i);
        best, index := PickAt(b, i, best, index);
      }
      assert lists[..|sources|] == lists;
    }

    /** No newer source shows the same key, so the second look at them changes nothing. */
    method SearchByIndex(b: Bound) returns (best: Option<Item>)
      requires WellFormed() && AllReady(b)
      modifies sources
      ensures AllPassed(b) && best == Smallest(Lists(sources), b)
    {
      var index;
      best, index := FindLeast(b);
      if best.Some? {
        LessIrreflexive(best.value.key);
        var value := NewestValue(best.value, index);
        best := Some(best.value.(value := value));
      }
    }

    /** At a nil key it searches from the start again and finds the same. */
    method Next() returns (ok: bool)
      requires Valid()
      modifies this, sources
      ensures Valid() && ok == valid && (old(!valid) ==> !valid)
      ensures old(valid && key.Some?) ==> Least(Contents(), After(old(KeyBytes())), Current())
      ensures old(valid && key.None?) ==> Current() == old(Current())
    {
      if !valid {
        return false;
      }
      ok := FindNextUniqueKey(key);
    }

    method Seek(target: Bytes) returns (ok: bool)
      requires Valid()
      modifies this, sources
      ensures Valid() && ok == valid && Answers(From(target))
    {
      for i := 0 to |sources|
        invariant forall j :: 0 <= j < i ==> sources[j].Found(From(target))
      {
        var found := sources[i].Seek(target);
      }
      ok := Search(From(target));
    }
  }

  // --- a whole scan ---------------------------------------------------------------------------------------------

  /** `out` lists, strictly ascending and each once, exactly the admitted keys, as Lookup answers them. */
  ghost predicate Merges(get: Bytes -> Option<Item>, b: Bound, out: seq<Item>) {
    && Strict(out)
    && (forall x :: x in out ==> Admits(b, x.key) && get(x.key) == Some(x))
    && (forall key :: Admits(b, key) && get(key).Some? ==> get(key).value in out)
  }

  /** Two lists that merge the same contents are the same list. */
  lemma {:induction false} MergesUnique(get: Bytes -> Option<Item>, b: Bound, a: seq<Item>, c: seq<Item>)
    requires Merges(get, b, a) && Merges(get, b, c)
    ensures a == c
  {
    assert forall x :: x in a <==> x in c by {
      assert forall x :: x in a ==> get(x.key).value == x;
      assert forall x :: x in c ==> get(x.key).value == x;
    }
    StrictUnique(a, c);
  }

  lemma {:induction false} StrictUnique(a: seq<Item>, c: seq<Item>)
    requires Strict(a) && Strict(c) && forall x :: x in a <==> x in c
    ensures a == c
  {
    assert a != [] ==> a[0] in c;
    assert c != [] ==> c[0] in a;
    if a != [] {
      HeadIsLeast(a, c[0]);
      HeadIsLeast(c, a[0]);
      LessAsymmetric(a[0].key, c[0].key);
      LessIrreflexive(a[0].key);
      TailMembers(a);
      TailMembers(c);
      StrictUnique(a[1..], c[1..]);
      assert a == [a[0]] + a[1..] && c == [c[0]] + c[1..];
    }
  }

  lemma HeadIsLeast(a: seq<Item>, x: Item)
    requires Strict(a) && x in a
    ensures x == a[0] || Less(a[0].key, x.key)
  {
  }

  lemma TailMembers(a: seq<Item>)
    requires Strict(a) && a != []
    ensures forall x :: x in a[1..] <==> x in a && x != a[0]
  {
    LessIrreflexive(a[0].key);
    forall x | x in a[1..] ensures x in a && x != a[0] {
      var j :| 0 <= j < |a[1..]| && a[1..][j] == x;
      assert Less(a[0].key, a[j + 1].key);
    }
  }

  /** `out` merges the contents up to the current item, which comes next. */
  ghost predicate MergedUpTo(get: Bytes -> Option<Item>, b: Bound, out: seq<Item>, current: Option<Item>) {
    match current
    case None => Merges(get, b, out)
    case Some(c) =>
      && Strict(out) && Admits(b, c.key) && get(c.key) == Some(c)
      && (forall x :: x in out ==> Less(x.key, c.key) && Admits(b, x.key) && get(x.key) == Some(x))
      && (forall key :: Admits(b, key) && get(key).Some? && Less(key, c.key) ==> get(key).value in out)
  }

  lemma ScanStart(get: Bytes -> Option<Item>, b: Bound, current: Option<Item>)
    requires Least(get, b, current)
    ensures MergedUpTo(get, b, [], current)
  {
    if current.Some? {
      forall key | Admits(b, key) && get(key).Some? ensures !Less(key, current.value.key) {
        LessAsymmetric(key, current.value.key);
        LessIrreflexive(key);
      }
    }
  }

  lemma ScanStep(get: Bytes -> Option<Item>, b: Bound, out: seq<Item>, c: Item, next: Option<Item>)
    requires MergedUpTo(get, b, out, Some(c)) && Least(get, After(c.key), next)
    ensures MergedUpTo(get, b, out + [c], next)
    ensures next.Some? ==> Less(c.key, next.value.key)
  {
    var out' := out + [c];
    assert forall x :: x in out' <==> x in out || x == c;
    forall key | Admits(b, key) && get(key).Some? && (next.None? || Less(key, next.value.key))
      ensures get(key).value in out'
    {
      LessTotal(key, c.key);
      assert Admits(After(c.key), key) ==> next.Some? && AtMost(next.value.key, key);
      if Less(c.key, key) {
        LessAsymmetric(c.key, key);
        LessIrreflexive(key);
        if next.Some? {
          LessAsymmetric(key, next.value.key);
        }
      }
    }
    if next.Some? {
      LessTotal(next.value.key, c.key);
      AdmitsUp(b, c.key, next.value.key);
      forall x | x in out ensures Less(x.key, next.value.key) {
        LessTransitive(x.key, c.key, next.value.key);
      }
    }
  }

  ghost function Above(lists: seq<seq<Item>>, key: Bytes): set<Bytes> {
    set i, x | 0 <= i < |lists| && x in lists[i] && Less(key, x.key) :: x.key
  }

  lemma AboveShrinks(lists: seq<seq<Item>>, key: Bytes, next: Bytes)
    requires Less(key, next) && Lookup(lists, next).Some?
    ensures |Above(lists, next)| < |Above(lists, key)|
  {
    LookupNone(lists, next);
    LessIrreflexive(next);
    assert next in Above(lists, key) && next !in Above(lists, next);
    forall k | k in Above(lists, next) ensures k in Above(lists, key) {
      LessTransitive(key, next, k);
    }
    SubsetSmaller(Above(lists, next), Above(lists, key));
  }

  lemma SubsetSmaller(a: set<Bytes>, b: set<Bytes>)
    requires a < b
    ensures |a| < |b|
  {
    assert b == a + (b - a);
  }

  /** One step of a scan: the current item joins what was merged, and fewer keys lie ahead. */
  method Advance(h: HierarchicalIterator, ghost b: Bound, ghost out: seq<Item>) returns (item: Item)
    requires h.Valid() && h.valid && h.key.Some? && MergedUpTo(h.Contents(), b, out, h.Current())
    modifies h, h.sources
    ensures h.Valid() && Some(item) == old(h.Current()) && (h.valid ==> h.key.Some?)
    ensures MergedUpTo(h.Contents(), b, out + [item], h.Current())
    ensures h.valid ==> |Above(Lists(h.sources), h.KeyBytes())| < |Above(Lists(h.sources), item.key)|
  {
    item := Item(h.KeyBytes(), h.value);
    var more := h.Next();
    ScanStep(h.Contents(), b, out, item, h.Current());
    if more {
      NilIsEmpty(Lists(h.sources), h.KeyBytes());
      assert h.Contents()(h.KeyBytes()) == h.Current();
      AboveShrinks(Lists(h.sources), item.key, h.KeyBytes());
    }
  }

  /** From the current position to the end. */
  method Drain(h: HierarchicalIterator, ghost b: Bound) returns (out: seq<Item>)
    requires h.Valid() && Plain(Lists(h.sources), b) && Least(h.Contents(), b, h.Current())
    modifies h, h.sources
    ensures h.Valid() && !h.valid && Merges(h.Contents(), b, out)
  {
    out := [];
    ScanStart(h.Contents(), b, h.Current());
    StandsAtKey(h, b);
    while h.valid
      invariant h.Valid() && (h.valid ==> h.key.Some?) && MergedUpTo(h.Contents(), b, out, h.Current())
      decreases h.valid, |Above(Lists(h.sources), h.KeyBytes())|
    {
      var item := Advance(h, b, out);
      out := out + [item];
    }
  }

  /** Unless the newest version of the empty key is nil, the iterator does not stand at a nil key. */
  lemma StandsAtKey(h: HierarchicalIterator, b: Bound)
    requires Plain(Lists(h.sources), b) && Least(h.Contents(), b, h.Current())
    ensures h.valid ==> h.key.Some?
  {
    if h.valid {
      assert h.Contents()(h.KeyBytes()) == h.Current();
    }
  }

  /** A full scan ends and lists the distinct union of the sources, newest source first. */
  method Scan(h: HierarchicalIterator) returns (out: seq<Item>)
    requires h.Valid() && !NilFirst(Lists(h.sources))
    modifies h, h.sources
    ensures h.Valid() && !h.valid && Merges(h.Contents(), All, out)
  {
    h.SeekToFirst();
    out := Drain(h, All);
  }

  method ScanFrom(h: HierarchicalIterator, target: Bytes) returns (out: seq<Item>)
    requires h.Valid() && (target == [] ==> !NilFirst(Lists(h.sources)))
    modifies h, h.sources
    ensures h.Valid() && !h.valid && Merges(h.Contents(), From(target), out)
  {
    assert Plain(Lists(h.sources), From(target));
    var found := h.Seek(target);
    out := Drain(h, From(target));
  }

  /** The condition is exact: with a nil key the first steps of a scan, however many, never amount to the merge. */
  method ScanOfNilKey(h: HierarchicalIterator, n: nat) returns (out: seq<Item>)
    requires h.Valid() && NilFirst(Lists(h.sources))
    modifies h, h.sources
    ensures h.Valid() && |out| <= n
    ensures
      || (h.valid && h.key.None? && |out| == n && forall i :: 0 <= i < n ==> Some(out[i]) == h.Current())
      || (!h.byIndex && forall x :: x in out ==> x.key != [])
  {
    h.SeekToFirst();
    out := [];
    ghost var stuck := h.key.None?;
    while |out| < n && h.valid
      invariant h.Valid() && |out| <= n && (stuck ==> h.valid)
      invariant h.valid ==> (h.key.None? <==> stuck)
      invariant stuck ==> forall i :: 0 <= i < |out| ==> Some(out[i]) == h.Current()
      invariant !stuck ==> !h.byIndex && (h.valid ==> h.KeyBytes() != []) && forall x :: x in out ==> x.key != []
      decreases n - |out|
    {
      out := out + [Item(h.KeyBytes(), h.value, h.key.None?)];
      ghost var before := h.KeyBytes();
      var more := h.Next();
      if !stuck && more {
        PastIsNotNil(h, before);
      }
    }
  }

  /** A source to which a nil key was written is one for which this happens. */
  lemma WrittenNilKey(value: Bytes)
    ensures NilFirst([[Item([], Some(value), true)]])
  {
    LookupMeaning([[Item([], Some(value), true)]], 0, 0);
  }

  lemma PastIsNotNil(h: HierarchicalIterator, before: Bytes)
    requires h.WellFormed() && h.valid && Least(h.Contents(), After(before), h.Current())
    ensures h.key.Some? && h.key.value != []
  {
    assert h.Contents()(h.KeyBytes()) == h.Current();
    assert !AtMost(h.KeyBytes(), before);
  }
}
