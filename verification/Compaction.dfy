/** The tiered strategy's choice of the tables to compact. */
module Compaction {
  import opened Options
  import opened Bytes
  import opened Merge
  import opened Levels

  // --- the range of the selected level-0 tables --------------------------------------------------------------

  /** The loop's minimum and maximum: an empty minimum is overwritten by whatever comes next. */
  function Hull(files: seq<Table>): Range {
    if files == [] then Range([], [])
    else
      var h, t := Hull(files[..|files| - 1]), Span(files[|files| - 1].items);
      Range(if h.first == [] || Less(t.first, h.first) then t.first else h.first,
            if h.last == [] || Less(h.last, t.last) then t.last else h.last)
  }

  /** From index `i` on every table has keys. */
  ghost predicate KeyedFrom(files: seq<Table>, i: int) {
    0 <= i < |files| && forall m :: i <= m < |files| ==> files[m].items != []
  }

  /** Some table after index `k` starts no later than this key. */
  ghost predicate StartsLater(files: seq<Table>, k: nat, key: Bytes) {
    exists j :: k < j < |files| && files[j].items != [] && AtMost(Span(files[j].items).first, key)
  }

  /** Whenever a table without keys follows one with keys, a later table reaches as far down again. */
  ghost predicate Recovered(files: seq<Table>) {
    forall i, k :: 0 <= i < k < |files| && files[i].items != [] && files[k].items == [] ==>
      StartsLater(files, k, Span(files[i].items).first)
  }

  ghost predicate Covered(files: seq<Table>) {
    forall i :: 0 <= i < |files| && files[i].items != [] ==> Keyed(Hull(files)) && Covers(Hull(files), files[i])
  }

  lemma SpanKeyed(t: Table)
    requires Sound(t)
    ensures Keyed(Span(t.items)) <==> t.items != []
    ensures Span(t.items).first == [] <==> t.items == []
    ensures Span(t.items).last == [] <==> t.items == []
  {
    if t.items != [] {
      SpanHolds(t, t.items[0]);
    }
  }

  /** The maximum is right whatever the tables hold. */
  lemma {:induction false} HullLast(files: seq<Table>, i: nat)
    requires AllSound(files) && i < |files|
    ensures AtMost(Span(files[i].items).last, Hull(files).last)
  {
    var n := |files| - 1;
    var h, t := Hull(files[..n]), Span(files[n].items);
    if i < n {
      HullLast(files[..n], i);
      AtMostTransitive(Span(files[i].items).last, h.last, Hull(files).last)
        by { assert h.last == [] ==> AtMost(h.last, t.last); }
    } else {
      LessTotal(h.last, t.last);
    }
  }

  /** The minimum is empty exactly when the last table has no keys. */
  lemma HullFirstEmpty(files: seq<Table>)
    requires AllSound(files)
    ensures Hull(files).first == [] <==> files == [] || files[|files| - 1].items == []
  {
    if files != [] {
      SpanKeyed(files[|files| - 1]);
    }
  }

  /** It is at most every first key after the last table without keys. */
  lemma {:induction false} HullFirstBelow(files: seq<Table>, i: nat)
    requires AllSound(files) && KeyedFrom(files, i)
    ensures AtMost(Hull(files).first, Span(files[i].items).first)
  {
    var n := |files| - 1;
    var init, first := files[..n], Span(files[i].items).first;
    var h, t := Hull(init), Span(files[n].items);
    if i < n {
      assert KeyedFrom(init, i) && init[i] == files[i];
      HullFirstBelow(init, i);
      HullFirstEmpty(init);
      AtMostTransitive(Hull(files).first, h.first, first);
    } else {
      LessTotal(h.first, t.first);
    }
  }

  /** And it is one of them. */
  lemma {:induction false} HullFirstWitness(files: seq<Table>) returns (i: nat)
    requires AllSound(files) && Hull(files).first != []
    ensures KeyedFrom(files, i) && Span(files[i].items).first == Hull(files).first
  {
    HullFirstEmpty(files);
    var n := |files| - 1;
    if Hull(files).first == Span(files[n].items).first {
      i := n;
    } else {
      i := HullFirstWitness(files[..n]);
    }
  }

  lemma LastKeyless(files: seq<Table>, k: nat) returns (last: nat)
    requires k < |files| && files[k].items == []
    ensures k <= last < |files| && files[last].items == []
    ensures forall m :: last < m < |files| ==> files[m].items != []
    decreases |files| - k
  {
    if m :| k < m < |files| && files[m].items == [] {
      last := LastKeyless(files, m);
    } else {
      last := k;
    }
  }

  lemma RecoveredCovers(files: seq<Table>, i: nat)
    requires AllSound(files) && Recovered(files) && i < |files| && files[i].items != []
    ensures Keyed(Hull(files)) && Covers(Hull(files), files[i])
  {
    HullFirstEmpty(files);
    HullLast(files, i);
    SpanKeyed(files[i]);
    var first := Span(files[i].items).first;
    if k :| i < k < |files| && files[k].items == [] {
      var last := LastKeyless(files, k);
      assert StartsLater(files, last, first);
      var j :| last < j < |files| && files[j].items != [] && AtMost(Span(files[j].items).first, first);
      HullFirstBelow(files, j);
      AtMostTransitive(Hull(files).first, Span(files[j].items).first, first);
    } else {
      HullFirstBelow(files, i);
    }
  }

  lemma CoveredRecovers(files: seq<Table>, i: nat, k: nat)
    requires AllSound(files) && Covered(files) && i < k < |files| && files[i].items != [] && files[k].items == []
    ensures StartsLater(files, k, Span(files[i].items).first)
  {
    var j := HullFirstWitness(files);
    assert j > k;
  }

  /** The computed range holds every selected table exactly when the tables recover from those without keys. */
  lemma CoveredWhenRecovered(files: seq<Table>)
    requires AllSound(files)
    ensures Covered(files) <==> Recovered(files)
  {
    if Recovered(files) {
      forall i | 0 <= i < |files| && files[i].items != [] ensures Keyed(Hull(files)) && Covers(Hull(files), files[i]) {
        RecoveredCovers(files, i);
      }
    }
    if Covered(files) {
      forall i, k | 0 <= i < k < |files| && files[i].items != [] && files[k].items == []
        ensures StartsLater(files, k, Span(files[i].items).first)
      {
        CoveredRecovers(files, i, k);
      }
    }
  }

  /** The same keys, whichever tables hold them. */
  ghost predicate SameKeys(inputs: seq<Table>, outputs: seq<Table>) {
    forall key :: HoldsKey(inputs, key) <==> HoldsKey(outputs, key)
  }

  lemma KeysStay(inputs: seq<Table>, outputs: seq<Table>, o: Table)
    requires SameKeys(inputs, outputs) && o in outputs
    ensures KeysFrom(o.items, inputs)
  {
    forall x | x in o.items ensures HoldsKey(inputs, x.key) {
      assert HoldsKey(outputs, x.key);
    }
  }

  /** A level-1 table that the selection passes over meets no output. */
  ghost predicate PassedOverIsMissed(selected: seq<Table>, outputs: seq<Table>, f: Table) {
    Sound(f) && !Overlaps(Span(f.items), Hull(selected)) ==>
      forall o :: o in outputs ==> !Overlaps(Span(f.items), Span(o.items))
  }

  lemma RecoveredMisses(selected: seq<Table>, outputs: seq<Table>, f: Table)
    requires AllSound(selected) && AllSound(outputs) && SameKeys(selected, outputs) && Recovered(selected)
    ensures PassedOverIsMissed(selected, outputs, f)
  {
    var h := Hull(selected);
    if Sound(f) && !Overlaps(Span(f.items), h) {
      CoveredWhenRecovered(selected);
      forall o | o in outputs ensures !Overlaps(Span(f.items), Span(o.items)) {
        KeysStay(selected, outputs, o);
        assert o.items != [] ==> HoldsKey(selected, o.items[0].key);
        if Keyed(h) {
          forall t | t in selected && t.items != [] ensures Tied(Span(t.items), h, Span(f.items)) {
            assert Covers(h, t);
          }
          BystanderIsMissed(h, f, selected, o.items);
        } else {
          assert o.items == [];
        }
      }
    }
  }

  /** A table of one key overlaps every table that holds the key. */
  lemma SingleMeets(x: Item, o: Table, y: Item)
    requires Sound(o) && y in o.items && y.key == x.key
    ensures Overlaps(Span([x]), Span(o.items))
  {
    SpanHolds(o, y);
    LessAsymmetric(Span(o.items).first, y.key);
    LessAsymmetric(Span(o.items).last, y.key);
    LessIrreflexive(y.key);
  }

  lemma UncoveredTable(selected: seq<Table>) returns (t: Table)
    requires AllSound(selected) && !Recovered(selected)
    ensures t in selected && t.items != [] && !Overlaps(Span([t.items[0]]), Hull(selected))
  {
    CoveredWhenRecovered(selected);
    var h := Hull(selected);
    var i :| 0 <= i < |selected| && selected[i].items != [] && !(Keyed(h) && Covers(h, selected[i]));
    t := selected[i];
    HullLast(selected, i);
    LessTotal(h.first, t.items[0].key);
  }

  /** The table on which an uncovered selection fails: it holds a key that the range leaves out. */
  lemma UncoveredMeets(selected: seq<Table>, outputs: seq<Table>) returns (f: Table)
    requires AllSound(selected) && AllSound(outputs) && SameKeys(selected, outputs) && !Recovered(selected)
    ensures !PassedOverIsMissed(selected, outputs, f)
  {
    var t := UncoveredTable(selected);
    var x := t.items[0];
    f := Table("", 0, 1, [x]);
    assert x in t.items && HoldsKey(selected, x.key) && HoldsKey(outputs, x.key);
    var o, y :| o in outputs && y in o.items && y.key == x.key;
    SingleMeets(x, o, y);
  }

  /**
    Selecting level-1 tables by the computed range is right for every possible level 1 exactly when
    each table without keys is followed by one that starts no later than the ones before it.
  */
  lemma SelectionIsExact(selected: seq<Table>, outputs: seq<Table>)
    requires AllSound(selected) && AllSound(outputs) && SameKeys(selected, outputs)
    ensures Recovered(selected) <==> forall f :: PassedOverIsMissed(selected, outputs, f)
  {
    if Recovered(selected) {
      forall f ensures PassedOverIsMissed(selected, outputs, f) {
        RecoveredMisses(selected, outputs, f);
      }
    } else {
      var f := UncoveredMeets(selected, outputs);
    }
  }

  function Single(key: Bytes): Item { Item(key, Some([])) }

  /** A level-0 table whose only key is the empty one, between two others, hides the first from the selection. */
  lemma KeylessTableHidesOthers() returns (stored: seq<seq<Item>>, selected: seq<Table>)
    ensures stored == [[Single([1])], [Single([])], [Single([9])]]
    ensures selected == [Load("a", 1, 1, stored[0]), Load("b", 2, 1, stored[1]), Load("c", 3, 1, stored[2])]
    ensures AllSound(selected) && !Recovered(selected)
    ensures Hull(selected) == Range([9], [9]) && Span(selected[0].items) == Range([1], [1])
  {
    stored := [[Single([1])], [Single([])], [Single([9])]];
    var low, none, high := Load("a", 1, 1, stored[0]), Load("b", 2, 1, stored[1]), Load("c", 3, 1, stored[2]);
    selected := [low, none, high];
    assert selected[..2] == [low, none] && [low, none][..1] == [low] && [low][..0] == [];
    assert Hull([low]) == Range([1], [1]);
    assert Hull([low, none]) == Range([], [1]);
    assert Less([1], [9]);
    assert !StartsLater(selected, 1, Span(selected[0].items).first) by {
      assert !AtMost([9], [1]);
    }
  }

  // --- selection ------------------------------------------------------------------------------------------------

  ghost predicate Older(files: seq<Table>, i: int, j: int) {
    0 <= i < j < |files| ==> files[i].sequence <= files[j].sequence
  }

  ghost predicate BySequence(files: seq<Table>) {
    forall i, j {:trigger Older(files, i, j)} :: Older(files, i, j)
  }

  lemma PutBetween(files: seq<Table>, t: Table, k: nat)
    requires BySequence(files) && k <= |files|
    requires k > 0 ==> files[k - 1].sequence <= t.sequence
    requires k < |files| ==> t.sequence <= files[k].sequence
    ensures BySequence(files[..k] + [t] + files[k..])
  {
    var r := files[..k] + [t] + files[k..];
    forall i, j ensures Older(r, i, j) {
      if 0 <= i < j < |r| {
        assert Older(files, if i < k then i else i - 1, if j < k then j else j - 1);
        assert Older(files, i, k - 1) && Older(files, k, j - 1);
      }
    }
  }

  lemma PutAdds(files: seq<Table>, t: Table, k: nat)
    requires k <= |files|
    ensures multiset(files[..k] + [t] + files[k..]) == multiset(files) + multiset{t}
  {
    assert files == files[..k] + files[k..];
  }

  method InsertBySequence(files: seq<Table>, t: Table) returns (r: seq<Table>)
    requires BySequence(files)
    ensures BySequence(r) && multiset(r) == multiset(files) + multiset{t}
  {
    var k := |files|;
    while k > 0 && t.sequence < files[k - 1].sequence
      invariant 0 <= k <= |files| && (k < |files| ==> t.sequence <= files[k].sequence)
    {
      k := k - 1;
    }
    PutBetween(files, t, k);
    PutAdds(files, t, k);
    r := files[..k] + [t] + files[k..];
  }

  /** Oldest first; tables of equal sequence number come in an order the caller must not rely on. */
  method SortBySequence(files: seq<Table>) returns (sorted: seq<Table>)
    ensures BySequence(sorted) && multiset(sorted) == multiset(files)
  {
    sorted := [];
    for n := 0 to |files|
      invariant BySequence(sorted) && multiset(sorted) == multiset(files[..n])
    {
      sorted := InsertBySequence(sorted, files[n]);
      assert files[..n + 1] == files[..n] + [files[n]];
    }
    assert files[..|files|] == files;
  }

  lemma SameTables(a: seq<Table>, b: seq<Table>)
    requires multiset(a) == multiset(b)
    ensures |a| == |b| && forall t :: t in a <==> t in b
  {
    assert |multiset(a)| == |a| && |multiset(b)| == |b|;
    assert forall t :: t in a <==> t in multiset(a);
    assert forall t :: t in b <==> t in multiset(b);
  }

  function Overlapping(files: seq<Table>, r: Range): (picked: seq<Table>)
    ensures forall f :: f in picked <==> f in files && Overlaps(Span(f.items), r)
  {
    if files == [] then []
    else
      var n := |files| - 1;
      Overlapping(files[..n], r) + (if Overlaps(Span(files[n].items), r) then [files[n]] else [])
  }

  method PickOverlapping(files: seq<Table>, r: Range) returns (picked: seq<Table>)
    ensures picked == Overlapping(files, r)
  {
    picked := [];
    for i := 0 to |files|
      invariant picked == Overlapping(files[..i], r)
    {
      assert files[..i + 1][..i] == files[..i];
      if Overlaps(Span(files[i].items), r) {
        picked := picked + [files[i]];
      }
    }
    assert files[..|files|] == files;
  }

  method HullOf(files: seq<Table>) returns (h: Range)
    ensures h == Hull(files)
  {
    var minKey: Bytes, maxKey: Bytes := [], [];
    for i := 0 to |files|
      invariant Range(minKey, maxKey) == Hull(files[..i])
    {
      assert files[..i + 1][..i] == files[..i];
      var t := Span(files[i].items);
      if minKey == [] || Less(t.first, minKey) {
        minKey := t.first;
      }
      if maxKey == [] || Less(maxKey, t.last) {
        maxKey := t.last;
      }
    }
    assert files[..|files|] == files;
    return Range(minKey, maxKey);
  }

  /** The oldest `n` tables of a level (all of them when it has fewer). */
  ghost predicate Oldest(files: seq<Table>, n: nat, chosen: seq<Table>) {
    && |chosen| == (if n < |files| then n else |files|)
    && BySequence(chosen) && multiset(chosen) <= multiset(files)
    && forall taken, other :: TakenFirst(files, chosen, taken, other)
  }

  ghost predicate TakenFirst(files: seq<Table>, chosen: seq<Table>, taken: Table, other: Table) {
    taken in chosen && other in multiset(files) - multiset(chosen) ==> taken.sequence <= other.sequence
  }

  lemma PrefixOfAll(sorted: seq<Table>, n: nat)
    requires n <= |sorted|
    ensures multiset(sorted[..n]) <= multiset(sorted)
    ensures multiset(sorted) - multiset(sorted[..n]) == multiset(sorted[n..])
    ensures forall t :: t in sorted[..n] ==> t in sorted
  {
    assert sorted == sorted[..n] + sorted[n..];
  }

  lemma PrefixIsOlder(sorted: seq<Table>, n: nat, taken: Table, other: Table)
    requires BySequence(sorted) && n <= |sorted| && taken in sorted[..n] && other in sorted[n..]
    ensures taken.sequence <= other.sequence
  {
    var i :| 0 <= i < n && sorted[..n][i] == taken;
    var j :| 0 <= j < |sorted[n..]| && sorted[n..][j] == other;
    assert Older(sorted, i, n + j);
  }

  lemma PrefixIsOldest(files: seq<Table>, sorted: seq<Table>, n: nat)
    requires BySequence(sorted) && multiset(sorted) == multiset(files) && n <= |sorted|
    ensures Oldest(files, n, sorted[..n])
    ensures forall t :: t in sorted[..n] ==> t in files
  {
    SameTables(sorted, files);
    PrefixOfAll(sorted, n);
    forall i, j ensures Older(sorted[..n], i, j) {
      assert Older(sorted, i, j);
    }
    forall taken, other | taken in sorted[..n] && other in multiset(sorted[n..])
      ensures TakenFirst(files, sorted[..n], taken, other)
    {
      PrefixIsOlder(sorted, n, taken, other);
    }
  }

  lemma SubsetIsSound(files: seq<Table>, some: seq<Table>)
    requires AllSound(files) && forall t :: t in some ==> t in files
    ensures AllSound(some)
  {
    forall i | 0 <= i < |some| ensures Sound(some[i]) {
      assert some[i] in files;
    }
  }

  /** Inputs from one level and what they overlap in the next. */
  function PairTask(level: nat, upper: seq<Table>, lower: seq<Table>): Task {
    Task(map[level := upper, level + 1 := lower], level + 1)
  }

  /** The upper tables and everything the range overlaps one level down. */
  function PairOf(levels: LevelMap, level: nat, upper: seq<Table>, h: Range): Task {
    PairTask(level, upper, Overlapping(FilesAt(levels, level + 1), h))
  }

  lemma PairTakes(levels: LevelMap, level: nat, upper: seq<Table>, h: Range)
    requires forall t :: t in upper ==> t in FilesAt(levels, level)
    ensures TakesFrom(levels, PairOf(levels, level, upper, h))
  {
  }

  lemma {:induction false} InputListSkips(inputs: LevelMap, upTo: nat)
    requires forall level :: level in inputs ==> level > upTo
    ensures InputList(inputs, upTo) == []
  {
    if upTo > 0 {
      InputListSkips(inputs, upTo - 1);
    }
  }

  lemma PairInputs(level: nat, upper: seq<Table>, lower: seq<Table>)
    ensures InputList(PairTask(level, upper, lower).inputs, level + 1) == upper + lower
  {
    var inputs := PairTask(level, upper, lower).inputs;
    if level > 0 {
      InputListSkips(inputs, level - 1);
    }
    assert InputList(inputs, level) == upper;
  }

  /** Whenever the range covers the upper tables, taking what it overlaps below is a choice that keeps the levels. */
  lemma PairIsChosen(levels: LevelMap, level: nat, upper: seq<Table>, h: Range)
    requires forall t :: t in upper ==> t in FilesAt(levels, level)
    requires forall t :: t in upper && t.items != [] ==> Keyed(h) && Covers(h, t)
    ensures Chosen(levels, PairOf(levels, level, upper, h))
  {
    var lower := Overlapping(FilesAt(levels, level + 1), h);
    var task := PairTask(level, upper, lower);
    PairTakes(levels, level, upper, h);
    if Keyed(h) {
      assert Picks(levels, task, h);
    } else {
      PairInputs(level, upper, lower);
      assert forall t :: t !in lower;
      assert NothingToWrite(task);
    }
  }

  lemma RecoveredIsCovered(selected: seq<Table>)
    requires AllSound(selected) && Recovered(selected)
    ensures forall t :: t in selected && t.items != [] ==> Keyed(Hull(selected)) && Covers(Hull(selected), t)
  {
    CoveredWhenRecovered(selected);
  }

  lemma RecoveredIsChosen(levels: LevelMap, level: nat, selected: seq<Table>)
    requires LevelsOk(levels) && forall t :: t in selected ==> t in FilesAt(levels, level)
    requires Recovered(selected)
    ensures Chosen(levels, PairOf(levels, level, selected, Hull(selected)))
  {
    var h := Hull(selected);
    SubsetIsSound(FilesAt(levels, level), selected) by {
      assert level in levels ==> LevelOk(levels[level], level);
    }
    RecoveredIsCovered(selected);
    PairIsChosen(levels, level, selected, h);
  }

  lemma NothingBelow(levels: LevelMap, maxLevel: nat, r: Range)
    requires forall l :: l in levels ==> l <= maxLevel
    ensures forall l: nat :: l > maxLevel ==> FilesAt(levels, l) == [] && Overlapping(FilesAt(levels, l), r) == []
  {
  }

  lemma RangeIsChosen(levels: LevelMap, inputs: LevelMap, maxLevel: nat, r: Range)
    requires forall l :: l in levels ==> l <= maxLevel
    requires forall l: nat :: FilesAt(inputs, l) == if l <= maxLevel then Overlapping(FilesAt(levels, l), r) else []
    ensures Chosen(levels, Task(inputs, maxLevel + 1))
  {
  }

  function TotalSize(files: seq<Table>): nat {
    if files == [] then 0 else TotalSize(files[..|files| - 1]) + files[|files| - 1].size
  }

  lemma SizeIsPositive(levels: LevelMap, level: nat)
    requires LevelsOk(levels)
    ensures TotalSize(FilesAt(levels, level)) == 0 <==> FilesAt(levels, level) == []
  {
    if level in levels {
      assert LevelOk(levels[level], level);
    }
  }

  /** A level that holds something, with nothing below it or less than the ratio allows. */
  predicate Outgrown(levels: LevelMap, level: nat, ratio: real) {
    var this', next := TotalSize(FilesAt(levels, level)), TotalSize(FilesAt(levels, level + 1));
    this' > 0 && (next == 0 || this' as real / next as real >= ratio)
  }

  /** The sizes are those of the tables, one by one. */
  lemma {:induction false} TotalSizeAdds(a: seq<Table>, b: seq<Table>)
    ensures TotalSize(a + b) == TotalSize(a) + TotalSize(b)
    ensures forall t :: b == [t] ==> TotalSize(b) == t.size
  {
    if b == [] {
      assert a + b == a;
    } else {
      var n := |b| - 1;
      assert (a + b)[..|a + b| - 1] == a + b[..n];
      TotalSizeAdds(a, b[..n]);
    }
  }

  /** `this'` is at least `ratio` times `next`. */
  predicate Exceeds(this': nat, next: nat, ratio: real) { this' as real >= ratio * next as real }

  lemma SizesCompare(this': nat, next: nat, ratio: real)
    ensures next > 0 ==> (this' as real / next as real >= ratio <==> Exceeds(this', next, ratio))
  {
    if next > 0 {
      QuotientCompares(this' as real, next as real, ratio);
    }
  }

  lemma OutgrownBySize(levels: LevelMap, level: nat, ratio: real, this': nat, next: nat)
    requires this' == TotalSize(FilesAt(levels, level)) && next == TotalSize(FilesAt(levels, level + 1))
    ensures Outgrown(levels, level, ratio) <==> this' > 0 && (next == 0 || Exceeds(this', next, ratio))
  {
    SizesCompare(this', next, ratio);
  }

  /** It holds tables, and the next level none, or tables that are small enough in comparison. */
  lemma OutgrownMeans(levels: LevelMap, level: nat, ratio: real, this': nat, next: nat)
    requires LevelsOk(levels)
    requires this' == TotalSize(FilesAt(levels, level)) && next == TotalSize(FilesAt(levels, level + 1))
    ensures Outgrown(levels, level, ratio) <==>
      FilesAt(levels, level) != [] && (FilesAt(levels, level + 1) == [] || Exceeds(this', next, ratio))
  {
    SizeIsPositive(levels, level);
    SizeIsPositive(levels, level + 1);
    OutgrownBySize(levels, level, ratio, this', next);
  }

  lemma QuotientCompares(a: real, b: real, ratio: real)
    requires b > 0.0
    ensures a / b >= ratio <==> a >= ratio * b
  {
    var q := a / b;
    assert q * b == a;
    if q >= ratio {
      assert (q - ratio) * b >= 0.0;
    } else {
      assert (ratio - q) * b > 0.0;
    }
  }

  function FirstOutgrown(levels: LevelMap, ratio: real, from: nat, end: nat): Option<nat>
    decreases end - from
  {
    if from >= end then None
    else if Outgrown(levels, from, ratio) then Some(from)
    else FirstOutgrown(levels, ratio, from + 1, end)
  }

  lemma {:induction false} FirstOutgrownMeans(levels: LevelMap, ratio: real, from: nat, end: nat)
    ensures match FirstOutgrown(levels, ratio, from, end)
      case None => forall l: nat :: from <= l < end ==> !Outgrown(levels, l, ratio)
      case Some(first) =>
        && from <= first < end && Outgrown(levels, first, ratio)
        && forall l: nat :: from <= l < first ==> !Outgrown(levels, l, ratio)
    decreases end - from
  {
    if from < end && !Outgrown(levels, from, ratio) {
      FirstOutgrownMeans(levels, ratio, from + 1, end);
    }
  }

  lemma L0Task(levels: LevelMap, selected: seq<Table>)
    requires LevelsOk(levels) && forall t :: t in selected ==> t in FilesAt(levels, 0)
    ensures var task := PairOf(levels, 0, selected, Hull(selected));
      && FilesAt(task.inputs, 0) == selected && LevelOf(Some(task)) == Some(0)
      && (Recovered(selected) ==> Chosen(levels, task))
  {
    if Recovered(selected) {
      RecoveredIsChosen(levels, 0, selected);
    }
  }

  /** The level a task takes its tables from first: the one above its target. */
  function LevelOf(task: Option<Task>): Option<nat> {
    if task.Some? && task.value.target > 0 then Some(task.value.target - 1) else None
  }

  /** The first tables of the sorted list, all of them when there are fewer. */
  method SelectOldest(files: seq<Table>, max: nat) returns (selected: seq<Table>)
    ensures Oldest(files, max, selected) && forall t :: t in selected ==> t in files
  {
    var sorted := SortBySequence(files);
    SameTables(sorted, files);
    var n := if max > |sorted| then |sorted| else max;
    PrefixIsOldest(files, sorted, n);
    return sorted[..n];
  }

  class TieredStrategy {
    var levels: LevelMap
    const maxMemTables: nat
    const compactionRatio: real

    constructor (levels: LevelMap, maxMemTables: nat, compactionRatio: real)
      ensures this.levels == levels && this.maxMemTables == maxMemTables && this.compactionRatio == compactionRatio
    {
      this.levels, this.maxMemTables, this.compactionRatio := levels, maxMemTables, compactionRatio;
    }

    /** The oldest level-0 tables and what their range overlaps in level 1. */
    method SelectL0Compaction() returns (task: Option<Task>, ghost chosen: seq<Table>)
      requires LevelsOk(levels)
      ensures task.None? <==> |FilesAt(levels, 0)| < 2
      ensures task.Some? ==>
        && Oldest(FilesAt(levels, 0), maxMemTables, FilesAt(task.value.inputs, 0))
        && task.value == PairOf(levels, 0, chosen, Hull(chosen)) && FilesAt(task.value.inputs, 0) == chosen
      ensures LevelOf(task) == (if |FilesAt(levels, 0)| < 2 then None else Some(0))
      ensures task.Some? ==>
        task.value.target > 0 && (Recovered(FilesAt(task.value.inputs, 0)) ==> Chosen(levels, task.value))
    {
      var files := FilesAt(levels, 0);
      if |files| < 2 {
        return None, [];
      }
      var selected := SelectOldest(files, maxMemTables);
      var h := HullOf(selected);
      var lower := PickOverlapping(FilesAt(levels, 1), h);
      L0Task(levels, selected);
      return Some(PairTask(0, selected, lower)), selected;
    }

    /** The oldest table moves to the empty level below. */
    method SelectPromotionCompaction(level: nat) returns (task: Task)
      requires FilesAt(levels, level) != []
      ensures task.inputs.Keys == {level} && task.target == level + 1
      ensures Oldest(FilesAt(levels, level), 1, FilesAt(task.inputs, level))
      ensures FilesAt(levels, level + 1) == [] ==> Chosen(levels, task)
    {
      var sorted := SortBySequence(FilesAt(levels, level));
      SameTables(sorted, FilesAt(levels, level));
      PrefixIsOldest(FilesAt(levels, level), sorted, 1);
      assert sorted[..1] == [sorted[0]];
      return Task(map[level := [sorted[0]]], level + 1);
    }

    /** The oldest table and what it overlaps in the next level. */
    method SelectOverlappingCompaction(level: nat) returns (task: Task)
      requires LevelsOk(levels) && FilesAt(levels, level) != []
      ensures Oldest(FilesAt(levels, level), 1, FilesAt(task.inputs, level))
      ensures task == PairOf(levels, level, FilesAt(task.inputs, level), Span(FilesAt(task.inputs, level)[0].items))
      ensures Chosen(levels, task)
    {
      var files := FilesAt(levels, level);
      var sorted := SortBySequence(files);
      SameTables(sorted, files);
      PrefixIsOldest(files, sorted, 1);
      var file := sorted[0];
      assert sorted[..1] == [file] && file in files;
      assert LevelOk(files, level);
      SpanKeyed(file);
      var lower := PickOverlapping(FilesAt(levels, level + 1), Span(file.items));
      PairIsChosen(levels, level, [file], Span(file.items));
      return PairTask(level, [file], lower);
    }

    method MaxLevel() returns (max: nat)
      ensures forall level :: level in levels ==> level <= max
      ensures max in levels || max == 0
    {
      max := 0;
      var rest := levels.Keys;
      while rest != {}
        invariant rest <= levels.Keys && (max in levels || max == 0)
        invariant forall level :: level in levels && level !in rest ==> level <= max
      {
        var level :| level in rest;
        if level > max {
          max := level;
        }
        rest := rest - {level};
      }
    }

    /** Everything the range overlaps, level by level, written below the deepest level. */
    method SelectRange(minKey: Bytes, maxKey: Bytes) returns (task: Option<Task>)
      ensures task.None? <==> forall level: nat :: Overlapping(FilesAt(levels, level), Range(minKey, maxKey)) == []
      ensures task.Some? ==> Chosen(levels, task.value)
      ensures task.Some? ==> forall level: nat ::
        FilesAt(task.value.inputs, level) == Overlapping(FilesAt(levels, level), Range(minKey, maxKey))
    {
      var r := Range(minKey, maxKey);
      var maxLevel := MaxLevel();
      var inputs := CollectOverlapping(r, maxLevel);
      NothingBelow(levels, maxLevel, r);
      if inputs == map[] {
        assert forall level: nat :: FilesAt(inputs, level) == [];
        return None;
      }
      ghost var some :| some in inputs;
      assert FilesAt(inputs, some) != [];
      RangeIsChosen(levels, inputs, maxLevel, r);
      return Some(Task(inputs, maxLevel + 1));
    }

    method CollectOverlapping(r: Range, maxLevel: nat) returns (inputs: LevelMap)
      ensures forall l: nat :: FilesAt(inputs, l) == if l <= maxLevel then Overlapping(FilesAt(levels, l), r) else []
      ensures forall l :: l in inputs ==> inputs[l] != []
    {
      inputs := map[];
      for level := 0 to maxLevel + 1
        invariant forall l: nat :: FilesAt(inputs, l) == if l < level then Overlapping(FilesAt(levels, l), r) else []
        invariant forall l :: l in inputs ==> inputs[l] != []
      {
        var picked := PickOverlapping(FilesAt(levels, level), r);
        if |picked| > 0 {
          inputs := inputs[level := picked];
        }
      }
    }

    method GetLevelSize(level: nat) returns (size: nat)
      ensures size == TotalSize(FilesAt(levels, level))
    {
      var files := FilesAt(levels, level);
      size := 0;
      for i := 0 to |files|
        invariant size == TotalSize(files[..i])
      {
        assert files[..i + 1][..i] == files[..i];
        size := size + files[i].size;
      }
      assert files[..|files|] == files;
    }

    /** The choice for one level: promote when the next is empty, compact when this one has outgrown it. */
    method SelectAt(level: nat) returns (task: Option<Task>)
      requires LevelsOk(levels)
      ensures task.Some? <==> Outgrown(levels, level, compactionRatio)
      ensures task.Some? ==> Chosen(levels, task.value) && task.value.target == level + 1
      ensures task.Some? ==> Oldest(FilesAt(levels, level), 1, FilesAt(task.value.inputs, level))
    {
      var thisSize := GetLevelSize(level);
      var nextSize := GetLevelSize(level + 1);
      SizeIsPositive(levels, level);
      SizeIsPositive(levels, level + 1);
      if thisSize == 0 {
        return None;
      }
      if nextSize == 0 {
        var t := SelectPromotionCompaction(level);
        return Some(t);
      }
      if thisSize as real / nextSize as real >= compactionRatio {
        var t := SelectOverlappingCompaction(level);
        return Some(t);
      }
      return None;
    }

    /** The first level above the deepest that has outgrown the next. */
    method SelectBySize(maxLevel: nat) returns (task: Option<Task>)
      requires LevelsOk(levels)
      ensures LevelOf(task) == FirstOutgrown(levels, compactionRatio, 0, maxLevel)
      ensures task.Some? ==> Chosen(levels, task.value) && task.value.target > 0
    {
      ghost var first := FirstOutgrown(levels, compactionRatio, 0, maxLevel);
      for level := 0 to maxLevel
        invariant first == FirstOutgrown(levels, compactionRatio, level, maxLevel)
      {
        task := SelectAt(level);
        if task.Some? {
          return;
        }
      }
      return None;
    }

    /**
      Level 0 when it holds enough tables, otherwise the first level that has outgrown the next. Whatever
      is selected keeps the levels, provided the level-0 tables recover from those without keys.
    */
    method SelectCompaction() returns (task: Option<Task>, maxLevel: nat)
      requires LevelsOk(levels)
      ensures (maxLevel in levels || maxLevel == 0) && forall level :: level in levels ==> level <= maxLevel
      ensures |FilesAt(levels, 0)| >= maxMemTables ==>
        LevelOf(task) == (if |FilesAt(levels, 0)| < 2 then None else Some(0))
      ensures |FilesAt(levels, 0)| < maxMemTables ==>
        LevelOf(task) == FirstOutgrown(levels, compactionRatio, 0, maxLevel)
      ensures task.Some? ==> task.value.target > 0
      ensures task.Some? && Recovered(FilesAt(task.value.inputs, 0)) ==> Chosen(levels, task.value)
    {
      maxLevel := MaxLevel();
      if |FilesAt(levels, 0)| >= maxMemTables {
        ghost var chosen;
        task, chosen := SelectL0Compaction();
      } else {
        task := SelectBySize(maxLevel);
      }
    }
  }
}
