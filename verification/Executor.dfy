/** Executing a compaction: merge the inputs, drop what need not be kept, cut the run into tables. */
module Executor {
  import opened Options
  import opened Bytes
  import opened Sequences
  import opened Merge
  import opened Levels
  import opened Compaction

  /** Values are always kept; a tombstone only when the filter says so. */
  predicate ShouldKeep(x: Item, keepTombstone: Bytes -> bool) {
    x.value.Some? || keepTombstone(x.key)
  }

  ghost function Kept(items: seq<Item>, keepTombstone: Bytes -> bool): seq<Item> {
    if items == [] then []
    else
      var n := |items| - 1;
      Kept(items[..n], keepTombstone) + (if ShouldKeep(items[n], keepTombstone) then [items[n]] else [])
  }

  lemma {:induction false} KeptSnoc(items: seq<Item>, x: Item, keepTombstone: Bytes -> bool)
    ensures Kept(items + [x], keepTombstone)
         == Kept(items, keepTombstone) + (if ShouldKeep(x, keepTombstone) then [x] else [])
  {
    assert (items + [x])[..|items|] == items;
  }

  /** Kept is a subsequence: same order, exactly the members the filter lets through. */
  lemma {:induction false} KeptMembers(items: seq<Item>, keepTombstone: Bytes -> bool)
    requires Strict(items)
    ensures Strict(Kept(items, keepTombstone))
    ensures forall x :: x in Kept(items, keepTombstone) <==> x in items && ShouldKeep(x, keepTombstone)
  {
    if items != [] {
      var n := |items| - 1;
      KeptMembers(items[..n], keepTombstone);
      var init := Kept(items[..n], keepTombstone);
      forall i | 0 <= i < |init| ensures Less(init[i].key, items[n].key) {
        assert init[i] in items[..n];
      }
      assert forall x :: x in items <==> x in items[..n] || x == items[n];
    }
  }

  /** `out` lists exactly the items with a value and the tombstones to keep, in order. */
  ghost predicate Survivors(items: seq<Item>, out: seq<Item>, keepTombstone: Bytes -> bool) {
    && Strict(out) && (forall x :: x in out ==> x in items)
    && (forall x :: x in items && x.value.Some? ==> x in out)
    && (forall x :: x in items && x.value.None? ==> (x in out <==> keepTombstone(x.key)))
  }

  lemma KeptSurvive(items: seq<Item>, keepTombstone: Bytes -> bool)
    requires Strict(items)
    ensures Survivors(items, Kept(items, keepTombstone), keepTombstone)
  {
    KeptMembers(items, keepTombstone);
  }

  /** Every table but the last is full, and the last is not empty. */
  ghost predicate Filled(tables: seq<seq<Item>>, max: nat) {
    && (forall i :: 0 <= i < |tables| - 1 ==> |tables[i]| == max)
    && (forall i :: 0 <= i < |tables| ==> 1 <= |tables[i]| <= max)
  }

  method OpenSources(inputs: seq<seq<Item>>) returns (sources: seq<Source>)
    ensures fresh(sources) && Lists(sources) == inputs
    ensures forall i :: 0 <= i < |sources| ==> sources[i].items == inputs[i]
    ensures forall i, j :: 0 <= i < j < |sources| ==> sources[i] != sources[j]
  {
    sources := [];
    for i := 0 to |inputs|
      invariant fresh(sources) && |sources| == i
      invariant forall j :: 0 <= j < i ==> sources[j].items == inputs[j]
      invariant forall j, k :: 0 <= j < k < i ==> sources[j] != sources[k]
    {
      var s := new Source(inputs[i]);
      sources := sources + [s];
    }
  }

  /** What has been written: full tables, then the one being written. */
  ghost predicate Writing(done: seq<seq<Item>>, current: seq<Item>, max: nat, run: seq<Item>) {
    && (forall i :: 0 <= i < |done| ==> |done[i]| == max)
    && |current| < max && Concat(done) + current == run
  }

  method WriteItem(done: seq<seq<Item>>, current: seq<Item>, x: Item, max: nat, ghost run: seq<Item>)
    returns (done': seq<seq<Item>>, current': seq<Item>)
    requires Writing(done, current, max, run)
    ensures Writing(done', current', max, run + [x])
  {
    done', current' := done, current + [x];
    assert Concat(done) + current' == run + [x];
    if |current'| >= max {
      ConcatSnoc(done, current');
      done', current' := done + [current'], [];
    }
  }

  function LastKey(items: seq<Item>): Option<Bytes> {
    if items == [] then None else Some(items[|items| - 1].key)
  }

  /** The merge yields each key once, so the check for a repeated key never fires. */
  lemma NotRepeated(get: Bytes -> Option<Item>, b: Bound, merged: seq<Item>, x: Item)
    requires MergedUpTo(get, b, merged, Some(x))
    ensures LastKey(merged) != Some(x.key)
  {
    LessIrreflexive(x.key);
    assert merged != [] ==> merged[|merged| - 1] in merged;
  }

  /** Writes the item unless it repeats the last key or need not be kept. */
  method WriteKept(done: seq<seq<Item>>, current: seq<Item>, lastKey: Option<Bytes>, x: Item, max: nat,
                   keepTombstone: Bytes -> bool, ghost merged: seq<Item>)
    returns (done': seq<seq<Item>>, current': seq<Item>)
    requires Writing(done, current, max, Kept(merged, keepTombstone)) && lastKey != Some(x.key)
    ensures Writing(done', current', max, Kept(merged + [x], keepTombstone))
  {
    KeptSnoc(merged, x, keepTombstone);
    done', current' := done, current;
    if lastKey != Some(x.key) && ShouldKeep(x, keepTombstone) {
      done', current' := WriteItem(done, current, x, max, Kept(merged, keepTombstone));
    }
  }

  /** One round of the loop: writes the current item if it is to be kept, and moves on. */
  method CompactNext(it: HierarchicalIterator, done: seq<seq<Item>>, current: seq<Item>, lastKey: Option<Bytes>,
                     max: nat, keepTombstone: Bytes -> bool, ghost merged: seq<Item>)
    returns (done': seq<seq<Item>>, current': seq<Item>, x: Item)
    requires it.Valid() && it.valid && it.key.Some? && MergedUpTo(it.Contents(), All, merged, it.Current())
    requires Writing(done, current, max, Kept(merged, keepTombstone)) && lastKey == LastKey(merged)
    modifies it, it.sources
    ensures it.Valid() && (it.valid ==> it.key.Some?) && MergedUpTo(it.Contents(), All, merged + [x], it.Current())
    ensures Writing(done', current', max, Kept(merged + [x], keepTombstone))
    ensures it.valid ==> |Above(Lists(it.sources), it.KeyBytes())| < |Above(Lists(it.sources), old(it.KeyBytes()))|
  {
    x := Item(it.KeyBytes(), it.value);
    NotRepeated(it.Contents(), All, merged, x);
    done', current' := WriteKept(done, current, lastKey, x, max, keepTombstone, merged);
    x := Advance(it, All, merged);
  }

  /** The loop over the merged items: full tables, the one being written, and what they hold. */
  method WriteMerged(it: HierarchicalIterator, keepTombstone: Bytes -> bool, max: nat)
    returns (done: seq<seq<Item>>, current: seq<Item>, ghost merged: seq<Item>)
    requires max > 0 && it.Valid() && (it.valid ==> it.key.Some?) && MergedUpTo(it.Contents(), All, [], it.Current())
    modifies it, it.sources
    ensures Merges(it.Contents(), All, merged) && Writing(done, current, max, Kept(merged, keepTombstone))
  {
    var lastKey: Option<Bytes> := None;
    done, current, merged := [], [], [];
    while it.valid
      invariant it.Valid() && (it.valid ==> it.key.Some?) && MergedUpTo(it.Contents(), All, merged, it.Current())
      invariant Writing(done, current, max, Kept(merged, keepTombstone)) && lastKey == LastKey(merged)
      decreases it.valid, |Above(Lists(it.sources), it.KeyBytes())|
    {
      var x;
      done, current, x := CompactNext(it, done, current, lastKey, max, keepTombstone, merged);
      lastKey := Some(x.key);
      merged := merged + [x];
    }
  }

  /** One run of the kept items of the merge, in tables that are full up to the last. */
  method WriteTables(inputs: seq<seq<Item>>, keepTombstone: Bytes -> bool, max: nat)
    returns (outputs: seq<seq<Item>>, ghost merged: seq<Item>)
    requires max > 0 && AllOrdered(inputs) && !NilFirst(inputs)
    ensures Merges(Lookups(inputs), All, merged)
    ensures Concat(outputs) == Kept(merged, keepTombstone)
    ensures Filled(outputs, max)
  {
    var sources := OpenSources(inputs);
    var it := new HierarchicalIterator(sources, true);
    it.SeekToFirst();
    ScanStart(it.Contents(), All, it.Current());
    StandsAtKey(it, All);
    var current;
    outputs, current, merged := WriteMerged(it, keepTombstone, max);
    if |current| > 0 {
      ConcatSnoc(outputs, current);
      outputs := outputs + [current];
    }
  }

  /** What every input with a value is answered with survives, and nothing else but the tombstones to keep. */
  method CompactFiles(inputs: seq<seq<Item>>, keepTombstone: Bytes -> bool, max: nat)
    returns (outputs: seq<seq<Item>>, ghost merged: seq<Item>)
    requires max > 0 && AllOrdered(inputs) && !NilFirst(inputs)
    ensures Merges(Lookups(inputs), All, merged) && Survivors(merged, Concat(outputs), keepTombstone)
    ensures forall key :: Carried(Lookup(inputs, key), Lookup(outputs, key), keepTombstone(key))
    ensures Concat(outputs) == Kept(merged, keepTombstone)
    ensures Filled(outputs, max)
  {
    outputs, merged := WriteTables(inputs, keepTombstone, max);
    AllAnswersCarry(inputs, merged, outputs, keepTombstone);
  }

  // --- what a key answers before and after ---------------------------------------------------------------

  /** A value is answered as before, a tombstone as before or not at all, and nothing new appears. */
  predicate Carried(before: Option<Item>, after: Option<Item>, keepTombstone: bool) {
    after == if before.Some? && (before.value.value.Some? || keepTombstone) then before else None
  }

  lemma StrictKeys(items: seq<Item>, x: Item, y: Item)
    requires Strict(items) && x in items && y in items && x.key == y.key
    ensures x == y
  {
    LessIrreflexive(x.key);
    var i :| 0 <= i < |items| && items[i] == x;
    var j :| 0 <= j < |items| && items[j] == y;
    assert i < j ==> Less(x.key, y.key);
    assert j < i ==> Less(y.key, x.key);
  }

  /** Pieces of a strictly ascending run answer a key with the item of the run that has it. */
  lemma PiecesAnswer(pieces: seq<seq<Item>>, key: Bytes)
    requires Strict(Concat(pieces))
    ensures Lookup(pieces, key).Some? ==> Lookup(pieces, key).value in Concat(pieces)
    ensures forall x :: x in Concat(pieces) && x.key == key ==> Lookup(pieces, key) == Some(x)
  {
    LookupNone(pieces, key);
    LookupMember(pieces, key);
    if Lookup(pieces, key).Some? {
      var i :| 0 <= i < |pieces| && Lookup(pieces, key).value in pieces[i];
      PieceMember(pieces, i, Lookup(pieces, key).value);
    }
    forall x | x in Concat(pieces) && x.key == key ensures Lookup(pieces, key) == Some(x) {
      var p :| 0 <= p < |Concat(pieces)| && Concat(pieces)[p] == x;
      var i, j := ConcatSource(pieces, p);
      assert x in pieces[i];
      StrictKeys(Concat(pieces), x, Lookup(pieces, key).value);
    }
  }

  lemma AnswersCarry(inputs: seq<seq<Item>>, merged: seq<Item>, outputs: seq<seq<Item>>,
                     keepTombstone: Bytes -> bool, key: Bytes)
    requires Merges(Lookups(inputs), All, merged) && Survivors(merged, Concat(outputs), keepTombstone)
    ensures Carried(Lookup(inputs, key), Lookup(outputs, key), keepTombstone(key))
  {
    var before, after := Lookup(inputs, key), Lookup(outputs, key);
    assert Lookups(inputs)(key) == before;
    PiecesAnswer(outputs, key);
    LookupNone(inputs, key);
    LookupNone(outputs, key);
    assert before.Some? ==> before.value in merged;
    if after.Some? {
      var y := after.value;
      assert y in merged && Lookups(inputs)(y.key) == Some(y);
    }
  }

  lemma AllAnswersCarry(inputs: seq<seq<Item>>, merged: seq<Item>, outputs: seq<seq<Item>>,
                        keepTombstone: Bytes -> bool)
    requires Merges(Lookups(inputs), All, merged) && Concat(outputs) == Kept(merged, keepTombstone)
    ensures Survivors(merged, Concat(outputs), keepTombstone)
    ensures forall key :: Carried(Lookup(inputs, key), Lookup(outputs, key), keepTombstone(key))
  {
    KeptSurvive(merged, keepTombstone);
    forall key ensures Carried(Lookup(inputs, key), Lookup(outputs, key), keepTombstone(key)) {
      AnswersCarry(inputs, merged, outputs, keepTombstone, key);
    }
  }

  /** Tables as read have no empty key, nil or not. */
  lemma SoundHaveNoNil(inputs: seq<Table>)
    requires AllSound(inputs)
    ensures AllOrdered(ItemsOf(inputs)) && !NilFirst(ItemsOf(inputs))
  {
    LookupNone(ItemsOf(inputs), []);
  }

  /** Every output is sorted, has no empty key, and holds keys of the inputs only. */
  lemma OutputIsSound(inputs: seq<Table>, pieces: seq<seq<Item>>, merged: seq<Item>, i: nat)
    requires AllSound(inputs) && Merges(Lookups(ItemsOf(inputs)), All, merged) && Strict(Concat(pieces))
    requires (forall x :: x in Concat(pieces) ==> x in merged) && i < |pieces|
    ensures Ordered(pieces[i]) && KeysFrom(pieces[i], inputs) && forall x :: x in pieces[i] ==> x.key != []
  {
    PieceIsOrdered(pieces, i);
    forall x | x in pieces[i] ensures x.key != [] && !x.nilKey && HoldsKey(inputs, x.key) {
      PieceMember(pieces, i, x);
      MergedKey(inputs, merged, x);
    }
  }

  /** The executor's output is what the level argument asks for. */
  lemma OutputsAreWritten(task: Task, outputs: seq<Table>, merged: seq<Item>, keepTombstone: Bytes -> bool)
    requires AllSound(InputList(task.inputs, task.target))
    requires Merges(Lookups(ItemsOf(InputList(task.inputs, task.target))), All, merged)
    requires Concat(ItemsOf(outputs)) == Kept(merged, keepTombstone)
    requires forall o :: o in outputs ==> o.size > 0
    ensures Written(task, outputs)
  {
    KeptMembers(merged, keepTombstone);
    forall i | 0 <= i < |outputs|
      ensures Sound(outputs[i]) && KeysFrom(outputs[i].items, InputList(task.inputs, task.target))
    {
      assert outputs[i] in outputs;
      OutputIsSound(InputList(task.inputs, task.target), ItemsOf(outputs), merged, i);
    }
  }

  lemma PieceMember(pieces: seq<seq<Item>>, i: nat, x: Item)
    requires i < |pieces| && x in pieces[i]
    ensures x in Concat(pieces)
  {
    var j :| 0 <= j < |pieces[i]| && pieces[i][j] == x;
    var p := ConcatPlace(pieces, i, j);
  }

  lemma {:induction false} PieceIsOrdered(pieces: seq<seq<Item>>, i: nat)
    requires i < |pieces| && Strict(Concat(pieces))
    ensures forall k, l :: 0 <= k < l < |pieces[i]| ==> AtMost(pieces[i][k].key, pieces[i][l].key)
  {
    var n := |pieces| - 1;
    var init := Concat(pieces[..n]);
    if i < n {
      assert forall p :: 0 <= p < |init| ==> Concat(pieces)[p] == init[p];
      PieceIsOrdered(pieces[..n], i);
    } else {
      assert forall q :: 0 <= q < |pieces[n]| ==> Concat(pieces)[|init| + q] == pieces[n][q];
    }
  }

  lemma MergedKey(inputs: seq<Table>, merged: seq<Item>, x: Item)
    requires AllSound(inputs) && Merges(Lookups(ItemsOf(inputs)), All, merged) && x in merged
    ensures x.key != [] && !x.nilKey && HoldsKey(inputs, x.key)
  {
    var lists := ItemsOf(inputs);
    NilIsEmpty(lists, x.key);
    assert Lookups(lists)(x.key) == Some(x);
    var m :| 0 <= m < |lists| && x in lists[m];
    assert inputs[m] in inputs && x in inputs[m].items;
  }

  /** Keys stored only in a table whose smallest key is empty do not survive its compaction. */
  lemma UnreadKeysAreLost(inputs: seq<Table>, stored: seq<Item>, t: Table, merged: seq<Item>, key: Bytes)
    requires AllSound(inputs) && Merges(Lookups(ItemsOf(inputs)), All, merged)
    requires stored != [] && stored[0].key == [] && t == Load(t.path, t.sequence, t.size, stored) && t in inputs
    requires forall u, y :: u in inputs && u != t && y in u.items ==> y.key != key
    ensures forall x :: x in merged ==> x.key != key
  {
    forall x | x in merged ensures x.key != key {
      MergedKey(inputs, merged, x);
    }
  }

  function Relevelled(levels: LevelMap, task: Task, outputs: seq<Table>): LevelMap {
    map level | level in levels.Keys + {task.target} :: Replaced(levels, task, outputs, level)
  }

  lemma RelevelledOk(levels: LevelMap, task: Task, outputs: seq<Table>)
    requires LevelsOk(levels) && Chosen(levels, task) && Written(task, outputs)
    ensures LevelsOk(Relevelled(levels, task, outputs))
    ensures forall level: nat ::
      FilesAt(Relevelled(levels, task, outputs), level) == Replaced(levels, task, outputs, level)
  {
    forall level: nat ensures LevelOk(Replaced(levels, task, outputs, level), level) {
      CompactionKeepsLevels(levels, task, outputs, level);
    }
  }

  /** The table belongs to the level afterwards: it was there and is no input, or it was written there. */
  predicate Belongs(levels: LevelMap, task: Task, outputs: seq<Table>, level: nat, f: Table) {
    (f in FilesAt(levels, level) && f !in FilesAt(task.inputs, level)) || (level == task.target && f in outputs)
  }

  lemma ReplacedMembers(levels: LevelMap, task: Task, outputs: seq<Table>, level: nat, f: Table)
    requires LevelsOk(levels)
    ensures f in Replaced(levels, task, outputs, level) <==> Belongs(levels, task, outputs, level, f)
  {
    assert LevelOk(FilesAt(levels, level), level);
    WithoutKeeps(FilesAt(levels, level), FilesAt(task.inputs, level), level);
  }

  lemma LookupJoin(before: seq<Table>, here: seq<Table>, key: Bytes)
    ensures Lookup(ItemsOf(before + here), key)
         == if Lookup(ItemsOf(before), key).Some? then Lookup(ItemsOf(before), key) else Lookup(ItemsOf(here), key)
  {
    assert ItemsOf(before + here) == ItemsOf(before) + ItemsOf(here);
    LookupConcat(ItemsOf(before), ItemsOf(here), key);
  }

  /** What the inputs of one level answer. */
  ghost function AnswerAt(inputs: LevelMap, level: nat, key: Bytes): Option<Item> {
    Lookup(ItemsOf(FilesAt(inputs, level)), key)
  }

  /** What the inputs of all levels up to this one answer. */
  ghost function InputsAnswer(inputs: LevelMap, upTo: nat, key: Bytes): Option<Item> {
    Lookup(ItemsOf(InputList(inputs, upTo)), key)
  }

  lemma InputsStep(inputs: LevelMap, upTo: nat, key: Bytes)
    ensures InputsAnswer(inputs, upTo, key)
         == if upTo > 0 && InputsAnswer(inputs, upTo - 1, key).Some? then InputsAnswer(inputs, upTo - 1, key)
            else AnswerAt(inputs, upTo, key)
  {
    LookupJoin(if upTo == 0 then [] else InputList(inputs, upTo - 1), FilesAt(inputs, upTo), key);
  }

  /** `totals[n]` is the first answer among the first `n + 1`. */
  ghost predicate Accumulates(answers: seq<Option<Item>>, totals: seq<Option<Item>>, n: int) {
    0 <= n < |answers| == |totals| ==>
      totals[n] == if n > 0 && totals[n - 1].Some? then totals[n - 1] else answers[n]
  }

  lemma {:induction false} FirstWins(answers: seq<Option<Item>>, totals: seq<Option<Item>>, n: nat, first: nat)
    requires first <= n < |answers| == |totals| && forall l :: Accumulates(answers, totals, l)
    requires answers[first].Some? && forall l :: 0 <= l < first ==> answers[l].None?
    ensures totals[n] == answers[first]
    decreases n
  {
    assert Accumulates(answers, totals, n);
    if first < n {
      FirstWins(answers, totals, n - 1, first);
    } else if n > 0 {
      NoneWins(answers, totals, n - 1);
    }
  }

  lemma {:induction false} NoneWins(answers: seq<Option<Item>>, totals: seq<Option<Item>>, n: nat)
    requires n < |answers| == |totals| && forall l :: Accumulates(answers, totals, l)
    requires forall l :: 0 <= l <= n ==> answers[l].None?
    ensures totals[n].None?
  {
    assert Accumulates(answers, totals, n);
    if n > 0 {
      NoneWins(answers, totals, n - 1);
    }
  }

  ghost function Answers(inputs: LevelMap, key: Bytes, n: nat): (r: seq<Option<Item>>)
    ensures |r| == n && forall l :: 0 <= l < n ==> r[l] == AnswerAt(inputs, l, key)
  {
    seq(n, l requires 0 <= l < n => AnswerAt(inputs, l, key))
  }

  ghost function Totals(inputs: LevelMap, key: Bytes, n: nat): (r: seq<Option<Item>>)
    ensures |r| == n && forall l :: 0 <= l < n ==> r[l] == InputsAnswer(inputs, l, key)
  {
    seq(n, l requires 0 <= l < n => InputsAnswer(inputs, l, key))
  }

  lemma TotalsAccumulate(inputs: LevelMap, key: Bytes, n: nat, l: int)
    ensures Accumulates(Answers(inputs, key, n), Totals(inputs, key, n), l)
  {
    if 0 <= l < n {
      InputsStep(inputs, l, key);
    }
  }

  /** The merge prefers the upper level: a key is answered by the first level whose inputs have it. */
  lemma UpperLevelWins(inputs: LevelMap, upTo: nat, level: nat, key: Bytes)
    requires level <= upTo && AnswerAt(inputs, level, key).Some?
    requires forall l: nat :: l < level ==> AnswerAt(inputs, l, key).None?
    ensures InputsAnswer(inputs, upTo, key) == AnswerAt(inputs, level, key)
  {
    var answers, totals := Answers(inputs, key, upTo + 1), Totals(inputs, key, upTo + 1);
    forall l ensures Accumulates(answers, totals, l) {
      TotalsAccumulate(inputs, key, upTo + 1, l);
    }
    FirstWins(answers, totals, upTo, level);
  }

  /** The tables under the names and numbers they are written with. */
  method NameTables(tables: seq<seq<Item>>, path: nat -> string, size: seq<Item> -> nat) returns (outputs: seq<Table>)
    ensures ItemsOf(outputs) == tables && forall i :: 0 <= i < |outputs| ==>
      outputs[i].path == path(i + 1) && outputs[i].sequence == i + 1 && outputs[i].size == size(outputs[i].items)
  {
    outputs := seq(|tables|, i requires 0 <= i < |tables| => Table(path(i + 1), i + 1, size(tables[i]), tables[i]));
    assert ItemsOf(outputs) == tables;
  }

  /** Runs a chosen task: its inputs give way to the tables written, and the levels stay free of overlap. */
  method Compact(s: TieredStrategy, task: Task, keepTombstone: Bytes -> bool, max: nat,
                 path: nat -> string, size: seq<Item> -> nat)
    returns (outputs: seq<Table>, ghost merged: seq<Item>)
    requires LevelsOk(s.levels) && Chosen(s.levels, task) && max > 0 && forall items :: size(items) > 0
    modifies s`levels
    ensures Merges(Lookups(ItemsOf(InputList(task.inputs, task.target))), All, merged)
    ensures Survivors(merged, Concat(ItemsOf(outputs)), keepTombstone) && Filled(ItemsOf(outputs), max)
    ensures forall key ::
      Carried(InputsAnswer(task.inputs, task.target, key), Lookup(ItemsOf(outputs), key), keepTombstone(key))
    ensures forall level: nat, f ::
      f in FilesAt(s.levels, level) <==> Belongs(old(s.levels), task, outputs, level, f)
    ensures LevelsOk(s.levels)
    ensures forall i :: 0 <= i < |outputs| ==>
      outputs[i].path == path(i + 1) && outputs[i].sequence == i + 1 && outputs[i].size == size(outputs[i].items)
  {
    var inputs := InputList(task.inputs, task.target);
    InputsAreSound(s.levels, task);
    SoundHaveNoNil(inputs);
    var tables;
    tables, merged := CompactFiles(ItemsOf(inputs), keepTombstone, max);
    outputs := NameTables(tables, path, size);
    OutputsAreWritten(task, outputs, merged, keepTombstone);
    RelevelledOk(s.levels, task, outputs);
    forall level: nat, f
      ensures f in Replaced(s.levels, task, outputs, level) <==> Belongs(s.levels, task, outputs, level, f)
    {
      ReplacedMembers(s.levels, task, outputs, level, f);
    }
    s.levels := Relevelled(s.levels, task, outputs);
  }
}
