/** Which tables a compaction takes, and why the level it writes to stays free of overlap. */
module Levels {
  import opened Bytes
  import opened Sequences
  import opened Merge

  /** A key range; an empty bound means that the table has no keys. */
  datatype Range = Range(first: Bytes, last: Bytes)

  predicate Keyed(r: Range) { r.first != [] && r.last != [] }

  predicate Overlaps(a: Range, b: Range) {
    Keyed(a) && Keyed(b) && !(Less(a.last, b.first) || Less(b.last, a.first))
  }

  datatype Table = Table(path: string, sequence: nat, size: nat, items: seq<Item>)

  function Span(items: seq<Item>): Range {
    if items == [] then Range([], []) else Range(items[0].key, items[|items| - 1].key)
  }

  /**
    What an iterator over a stored table yields. An iterator that stands at an empty key counts as
    invalid, so a table whose smallest key is empty reads as one without keys.
  */
  function AsRead(stored: seq<Item>): seq<Item> {
    if stored != [] && stored[0].key == [] then [] else stored
  }

  /** A table as it is loaded: its items, and with them its first and last key, are what the iterator shows. */
  function Load(path: string, sequence: nat, size: nat, stored: seq<Item>): Table {
    Table(path, sequence, size, AsRead(stored))
  }

  /** A table as read is sorted, has no empty keys, and takes some space; it may hold no keys at all. */
  ghost predicate Sound(t: Table) {
    Ordered(t.items) && t.size > 0 && forall x :: x in t.items ==> x.key != []
  }

  /** Every sorted table is sound as read, whatever its keys. */
  lemma LoadIsSound(path: string, sequence: nat, size: nat, stored: seq<Item>)
    requires Ordered(stored) && size > 0
    ensures Sound(Load(path, sequence, size, stored))
    ensures Load(path, sequence, size, stored).items == [] <==> stored == [] || stored[0].key == []
  {
    if stored != [] && stored[0].key != [] {
      forall x | x in stored ensures x.key != [] {
        var i :| 0 <= i < |stored| && stored[i] == x;
        assert i > 0 ==> AtMost(stored[0].key, stored[i].key);
      }
    }
  }

  ghost predicate AllSound(files: seq<Table>) {
    forall i :: 0 <= i < |files| ==> Sound(files[i])
  }

  ghost predicate Disjoint(files: seq<Table>) {
    forall i, j :: 0 <= i < j < |files| ==> !Overlaps(Span(files[i].items), Span(files[j].items))
  }

  lemma OverlapsSymmetric(a: Range, b: Range)
    ensures Overlaps(a, b) <==> Overlaps(b, a)
  {
  }

  /** Overlaps is what it should be for tables: some key lies between the bounds of both. */
  lemma OverlapsMeansSharedKey(a: Range, b: Range)
    requires Keyed(a) && Keyed(b) && AtMost(a.first, a.last) && AtMost(b.first, b.last)
    ensures Overlaps(a, b) <==> exists key :: Inside(key, a) && Inside(key, b)
  {
    if Overlaps(a, b) {
      LessTotal(a.first, b.first);
      LessTotal(a.last, b.first);
      LessTotal(b.last, a.first);
      assert Inside(if Less(a.first, b.first) then b.first else a.first, a);
      assert Inside(if Less(a.first, b.first) then b.first else a.first, b);
    }
    if key :| Inside(key, a) && Inside(key, b) {
      AtMostTransitive(a.first, key, b.last);
      AtMostTransitive(b.first, key, a.last);
      LessAsymmetric(a.first, b.last);
      LessAsymmetric(b.first, a.last);
      LessIrreflexive(a.first);
      LessIrreflexive(b.first);
    }
  }

  predicate Inside(key: Bytes, r: Range) { AtMost(r.first, key) && AtMost(key, r.last) }

  lemma SpanHolds(t: Table, x: Item)
    requires Sound(t) && x in t.items
    ensures Keyed(Span(t.items)) && Inside(x.key, Span(t.items))
    ensures AtMost(Span(t.items).first, Span(t.items).last)
  {
    var i :| 0 <= i < |t.items| && t.items[i] == x;
    assert t.items[0] in t.items && t.items[|t.items| - 1] in t.items;
  }

  // --- why the target level stays disjoint ------------------------------------------------------------------

  /** `a` adds nothing outside `h` that could meet `f`, which misses `h`. */
  ghost predicate Tied(a: Range, h: Range, f: Range) {
    || (AtMost(h.first, a.first) && AtMost(a.last, h.last))
    || (Overlaps(a, h) && !Overlaps(a, f))
  }

  lemma StaysAbove(h: Range, f: Range, a: Range, key: Bytes)
    requires Keyed(f) && AtMost(f.first, f.last) && Less(f.last, h.first)
    requires Keyed(a) && Inside(key, a) && Tied(a, h, f)
    ensures Less(f.last, key)
  {
    if AtMost(h.first, a.first) {
      AtMostTransitive(h.first, a.first, key);
      AtMostTransitive(f.last, h.first, key);
    } else if Less(f.last, a.first) {
      AtMostTransitive(f.last, a.first, key);
    } else {
      AtMostTransitive(f.first, f.last, h.first);
      AtMostTransitive(a.first, key, a.last);
      assert Overlaps(a, h) ==> !Less(a.last, h.first);
      assert Tied(a, h, f) ==> Less(a.last, f.first);
      LessTransitive(a.last, f.first, h.first);
      assert false;
    }
  }

  lemma StaysBelow(h: Range, f: Range, a: Range, key: Bytes)
    requires Keyed(f) && AtMost(f.first, f.last) && Less(h.last, f.first)
    requires Keyed(a) && Inside(key, a) && Tied(a, h, f)
    ensures Less(key, f.first)
  {
    if AtMost(a.last, h.last) {
      AtMostTransitive(key, a.last, h.last);
      AtMostTransitive(key, h.last, f.first);
    } else if Less(a.last, f.first) {
      AtMostTransitive(key, a.last, f.first);
    } else {
      AtMostTransitive(h.last, f.first, f.last);
      assert Tied(a, h, f) ==> Less(f.last, a.first);
      LessTransitive(h.last, f.last, a.first);
      assert false;
    }
  }

  /** Every key of `out` is a key of some input. */
  ghost predicate KeysFrom(out: seq<Item>, inputs: seq<Table>) {
    forall x :: x in out ==> HoldsKey(inputs, x.key)
  }

  ghost predicate HoldsKey(files: seq<Table>, key: Bytes) {
    exists t, y :: t in files && y in t.items && y.key == key
  }

  /** A table that misses `h` also misses whatever is written from inputs tied to `h`. */
  lemma BystanderIsMissed(h: Range, f: Table, inputs: seq<Table>, out: seq<Item>)
    requires Sound(f) && Keyed(h) && !Overlaps(Span(f.items), h) && AllSound(inputs) && KeysFrom(out, inputs)
    requires forall t :: t in inputs ==> Tied(Span(t.items), h, Span(f.items)) || t.items == []
    ensures !Overlaps(Span(f.items), Span(out))
  {
    if f.items != [] && out != [] {
      var range := Span(f.items);
      SpanHolds(f, f.items[0]);
      assert out[0] in out && out[|out| - 1] in out;
      assert HoldsKey(inputs, out[0].key) && HoldsKey(inputs, out[|out| - 1].key);
      var a, x :| a in inputs && x in a.items && x.key == out[0].key;
      var b, y :| b in inputs && y in b.items && y.key == out[|out| - 1].key;
      SpanHolds(a, x);
      SpanHolds(b, y);
      if Less(range.last, h.first) {
        StaysAbove(h, range, Span(a.items), x.key);
      } else {
        StaysBelow(h, range, Span(b.items), y.key);
      }
    }
  }

  /** Consecutive pieces of one strictly ascending run do not overlap. */
  lemma PiecesAreDisjoint(pieces: seq<seq<Item>>, i: nat, j: nat)
    requires Strict(Concat(pieces)) && i < j < |pieces|
    ensures !Overlaps(Span(pieces[i]), Span(pieces[j]))
  {
    if pieces[i] != [] && pieces[j] != [] {
      var p, q := ConcatOrder(pieces, i, |pieces[i]| - 1, j, 0);
    }
  }

  // --- tasks and what executing one does to the levels --------------------------------------------------------

  type LevelMap = map<nat, seq<Table>>

  function FilesAt(levels: LevelMap, level: nat): seq<Table> {
    if level in levels then levels[level] else []
  }

  datatype Task = Task(inputs: LevelMap, target: nat)

  /** The input tables in the order the merge takes them: level by level up to the target. */
  function InputList(inputs: LevelMap, upTo: nat): seq<Table> {
    (if upTo == 0 then [] else InputList(inputs, upTo - 1)) + FilesAt(inputs, upTo)
  }

  function Without(files: seq<Table>, gone: seq<Table>): seq<Table> {
    if files == [] then []
    else (if files[0] in gone then [] else [files[0]]) + Without(files[1..], gone)
  }

  /** The inputs are gone and the outputs stand at the target level. */
  function Replaced(levels: LevelMap, task: Task, outputs: seq<Table>, level: nat): seq<Table> {
    Without(FilesAt(levels, level), FilesAt(task.inputs, level)) + (if level == task.target then outputs else [])
  }

  /** Levels from 1 on hold tables with disjoint ranges; level 0 may overlap. */
  ghost predicate LevelOk(files: seq<Table>, level: nat) {
    AllSound(files) && (level >= 1 ==> Disjoint(files))
  }

  ghost predicate LevelsOk(levels: LevelMap) {
    forall level :: level in levels ==> LevelOk(levels[level], level)
  }

  /** The key range `h` that decides which tables of the target level take part. */
  ghost predicate Picks(levels: LevelMap, task: Task, h: Range) {
    && Keyed(h)
    && (forall f :: f in FilesAt(levels, task.target) ==>
        (f in FilesAt(task.inputs, task.target) <==> Overlaps(Span(f.items), h)))
    && (forall level, f :: 0 <= level < task.target && f in FilesAt(task.inputs, level) ==> Covers(h, f))
  }

  predicate Covers(h: Range, t: Table) {
    t.items == [] || (AtMost(h.first, Span(t.items).first) && AtMost(Span(t.items).last, h.last))
  }

  ghost predicate TakesFrom(levels: LevelMap, task: Task) {
    forall level: nat, f :: f in FilesAt(task.inputs, level) ==> level <= task.target && f in FilesAt(levels, level)
  }

  /** A task the strategy may choose: its target level is empty, or one range decides. */
  ghost predicate Chosen(levels: LevelMap, task: Task) {
    && task.target >= 1 && TakesFrom(levels, task)
    && (FilesAt(levels, task.target) == [] || NothingToWrite(task) || exists h :: Picks(levels, task, h))
  }

  ghost predicate NothingToWrite(task: Task) {
    forall t :: t in InputList(task.inputs, task.target) ==> t.items == []
  }

  /** What CompactFiles writes: one strictly ascending run of input keys, cut into tables. */
  ghost predicate Written(task: Task, outputs: seq<Table>) {
    && AllSound(outputs)
    && Strict(Concat(ItemsOf(outputs)))
    && forall o :: o in outputs ==> KeysFrom(o.items, InputList(task.inputs, task.target))
  }

  function ItemsOf(files: seq<Table>): (r: seq<seq<Item>>)
    ensures |r| == |files| && forall i :: 0 <= i < |files| ==> r[i] == files[i].items
  {
    seq(|files|, i requires 0 <= i < |files| => files[i].items)
  }

  /** The first table in front of some of the others. */
  lemma PrependKeeps(files: seq<Table>, kept: seq<Table>, level: nat)
    requires files != [] && LevelOk(files, level) && LevelOk(kept, level) && forall f :: f in kept ==> f in files[1..]
    ensures LevelOk([files[0]] + kept, level)
  {
    var all := [files[0]] + kept;
    forall i, j | level >= 1 && 0 <= i < j < |all| ensures !Overlaps(Span(all[i].items), Span(all[j].items)) {
      if i == 0 {
        assert kept[j - 1] in files[1..];
        var m :| 0 <= m < |files[1..]| && files[1..][m] == kept[j - 1];
        assert files[m + 1] == all[j];
      } else {
        assert all[i] == kept[i - 1] && all[j] == kept[j - 1];
      }
    }
  }

  lemma {:induction false} WithoutKeeps(files: seq<Table>, gone: seq<Table>, level: nat)
    requires LevelOk(files, level)
    ensures LevelOk(Without(files, gone), level)
    ensures forall f :: f in Without(files, gone) <==> f in files && f !in gone
  {
    if files != [] {
      var rest := files[1..];
      WithoutKeeps(rest, gone, level);
      PrependKeeps(files, Without(rest, gone), level);
    }
  }

  lemma {:induction false} InputListMembers(inputs: LevelMap, upTo: nat)
    ensures forall t :: t in InputList(inputs, upTo) <==>
      exists level: nat :: level <= upTo && t in FilesAt(inputs, level)
  {
    if upTo > 0 {
      InputListMembers(inputs, upTo - 1);
    }
    forall t | t in InputList(inputs, upTo) ensures exists level: nat :: level <= upTo && t in FilesAt(inputs, level) {
      if t in FilesAt(inputs, upTo) {
      } else {
        assert upTo > 0;
      }
    }
  }

  lemma InputsAreSound(levels: LevelMap, task: Task)
    requires LevelsOk(levels) && TakesFrom(levels, task)
    ensures AllSound(InputList(task.inputs, task.target))
  {
    var inputs := InputList(task.inputs, task.target);
    forall i | 0 <= i < |inputs| ensures Sound(inputs[i]) {
      InputListMembers(task.inputs, task.target);
      assert inputs[i] in inputs;
      var level: nat :| level <= task.target && inputs[i] in FilesAt(task.inputs, level);
      assert inputs[i] in FilesAt(levels, level);
      assert LevelOk(levels[level], level);
    }
  }

  lemma DisjointMembers(files: seq<Table>, t: Table, f: Table)
    requires Disjoint(files) && t in files && f in files && t != f
    ensures !Overlaps(Span(t.items), Span(f.items))
  {
    var i :| 0 <= i < |files| && files[i] == t;
    var j :| 0 <= j < |files| && files[j] == f;
    OverlapsSymmetric(Span(t.items), Span(f.items));
    assert i < j || j < i;
  }

  lemma InputIsTied(levels: LevelMap, task: Task, h: Range, f: Table, level: nat, t: Table)
    requires LevelsOk(levels) && TakesFrom(levels, task) && Picks(levels, task, h) && task.target >= 1
    requires f in FilesAt(levels, task.target) && f !in FilesAt(task.inputs, task.target)
    requires level <= task.target && t in FilesAt(task.inputs, level) && t.items != []
    ensures Tied(Span(t.items), h, Span(f.items))
  {
    if level < task.target {
      assert Covers(h, t);
    } else {
      var files := FilesAt(levels, task.target);
      assert t in files && Overlaps(Span(t.items), h);
      assert Disjoint(files) by { assert LevelOk(levels[task.target], task.target); }
      DisjointMembers(files, t, f);
    }
  }

  lemma InputsAreTied(levels: LevelMap, task: Task, h: Range, f: Table)
    requires LevelsOk(levels) && TakesFrom(levels, task) && Picks(levels, task, h) && task.target >= 1
    requires f in FilesAt(levels, task.target) && f !in FilesAt(task.inputs, task.target)
    ensures forall t :: t in InputList(task.inputs, task.target) ==>
      Tied(Span(t.items), h, Span(f.items)) || t.items == []
  {
    InputListMembers(task.inputs, task.target);
    forall t | t in InputList(task.inputs, task.target) && t.items != [] ensures Tied(Span(t.items), h, Span(f.items)) {
      var level: nat :| level <= task.target && t in FilesAt(task.inputs, level);
      InputIsTied(levels, task, h, f, level, t);
    }
  }

  lemma OutputsMissTheRest(levels: LevelMap, task: Task, outputs: seq<Table>, f: Table, o: Table)
    requires LevelsOk(levels) && Chosen(levels, task) && Written(task, outputs)
    requires f in FilesAt(levels, task.target) && f !in FilesAt(task.inputs, task.target) && o in outputs
    ensures !Overlaps(Span(f.items), Span(o.items))
  {
    var inputs := InputList(task.inputs, task.target);
    InputsAreSound(levels, task);
    assert KeysFrom(o.items, inputs) && (o.items != [] ==> o.items[0] in o.items);
    if NothingToWrite(task) {
      assert o.items == [];
    } else {
      var h :| Picks(levels, task, h);
      InputsAreTied(levels, task, h, f);
      assert LevelOk(levels[task.target], task.target);
      BystanderIsMissed(h, f, inputs, o.items);
    }
  }

  lemma OutputsAreDisjoint(outputs: seq<Table>)
    requires Strict(Concat(ItemsOf(outputs)))
    ensures Disjoint(outputs)
  {
    forall i, j | 0 <= i < j < |outputs| ensures !Overlaps(Span(outputs[i].items), Span(outputs[j].items)) {
      PiecesAreDisjoint(ItemsOf(outputs), i, j);
    }
  }

  lemma JoinDisjoint(a: seq<Table>, b: seq<Table>)
    requires AllSound(a) && AllSound(b) && Disjoint(a) && Disjoint(b)
    requires forall x, y :: x in a && y in b ==> !Overlaps(Span(x.items), Span(y.items))
    ensures AllSound(a + b) && Disjoint(a + b)
  {
    var c := a + b;
    forall i, j | 0 <= i < j < |c| ensures !Overlaps(Span(c[i].items), Span(c[j].items)) {
      if i < |a| <= j {
        assert c[i] in a && c[j] in b;
      }
    }
  }

  /** Every chosen compaction leaves every level from 1 on free of overlap. */
  lemma CompactionKeepsLevels(levels: LevelMap, task: Task, outputs: seq<Table>, level: nat)
    requires LevelsOk(levels) && Chosen(levels, task) && Written(task, outputs)
    ensures LevelOk(Replaced(levels, task, outputs, level), level)
  {
    var files := FilesAt(levels, level);
    assert level in levels ==> LevelOk(levels[level], level);
    var kept := Without(files, FilesAt(task.inputs, level));
    WithoutKeeps(files, FilesAt(task.inputs, level), level);
    if level == task.target {
      OutputsAreDisjoint(outputs);
      forall x, y | x in kept && y in outputs ensures !Overlaps(Span(x.items), Span(y.items)) {
        OutputsMissTheRest(levels, task, outputs, x, y);
      }
      JoinDisjoint(kept, outputs);
    } else {
      assert kept + [] == kept;
    }
  }
}
