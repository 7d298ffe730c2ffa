/**
  The skip list behind the memtable: nodes linked at up to twelve levels, relinked in place.
  Level 0 is the sorted list of everything inserted; each higher level skips the lower nodes.
*/
module SkipList {
  import opened Options
  import opened Bytes

  const MAX_HEIGHT := 12

  datatype Entry = Entry(key: Bytes, value: Bytes, deletion: bool, sequence: nat)

  /** compareWithEntry(a, b) < 0: by key, and among equal keys the newer first. */
  predicate Before(a: Entry, b: Entry) {
    Less(a.key, b.key) || (a.key == b.key && a.sequence > b.sequence)
  }

  lemma BeforeTransitive(a: Entry, b: Entry, c: Entry)
    requires !Before(b, a) && !Before(c, b)
    ensures !Before(c, a)
  {
    LessTotal(a.key, b.key);
    LessTotal(b.key, c.key);
    AtMostTransitive(a.key, b.key, c.key);
    LessAsymmetric(a.key, c.key);
    LessIrreflexive(a.key);
  }

  lemma BeforeAsymmetric(a: Entry, b: Entry)
    ensures !(Before(a, b) && Before(b, a))
  {
    LessAsymmetric(a.key, b.key);
    LessIrreflexive(a.key);
  }

  class Node {
    const entry: Entry
    const height: nat
    var next: seq<Node?>

    constructor (entry: Entry, height: nat)
      ensures this.entry == entry && this.height == height
      ensures next == seq(MAX_HEIGHT, _ => null)
    {
      this.entry, this.height := entry, height;
      next := seq(MAX_HEIGHT, _ => null);
    }
  }

  // --- the chain of nodes in level-0 order, head first ---------------------------------------------------

  ghost function NodeAt(chain: seq<Node>, i: nat): Node? {
    if i < |chain| then chain[i] else null
  }

  /** The first node from index `from` on that is tall enough for level `l`. */
  ghost function NextTall(chain: seq<Node>, from: nat, l: nat): (j: nat)
    requires from <= |chain|
    ensures from <= j <= |chain|
    ensures forall m :: from <= m < j ==> chain[m].height <= l
    ensures j < |chain| ==> chain[j].height > l
    decreases |chain| - from
  {
    if from == |chain| || chain[from].height > l then from else NextTall(chain, from + 1, l)
  }

  type Links = seq<seq<Node?>>

  /** Node `i` points, at level `l`, to the next node tall enough for that level. */
  ghost predicate LinkedAt(chain: seq<Node>, links: Links, i: nat, l: nat)
    requires i < |chain| == |links|
  {
    l < |links[i]| && links[i][l] == NodeAt(chain, NextTall(chain, i + 1, l))
  }

  ghost predicate Linked(chain: seq<Node>, links: Links) {
    && |links| == |chain|
    && (forall i :: 0 <= i < |links| ==> |links[i]| == MAX_HEIGHT)
    && (forall i, l :: 0 <= i < |chain| && 0 <= l < chain[i].height ==> LinkedAt(chain, links, i, l))
  }

  ghost function LinksOf(chain: seq<Node>): (links: Links)
    reads chain
    ensures |links| == |chain| && forall i :: 0 <= i < |chain| ==> links[i] == chain[i].next
  {
    seq(|chain|, i requires 0 <= i < |chain| reads chain => chain[i].next)
  }

  ghost predicate Distinct(chain: seq<Node>) {
    forall i, j :: 0 <= i < j < |chain| ==> chain[i] != chain[j]
  }

  ghost predicate InOrder(entries: seq<Entry>, i: int, j: int) {
    0 <= i < j < |entries| ==> !Before(entries[j], entries[i])
  }

  ghost predicate Sorted(entries: seq<Entry>) {
    forall i, j {:trigger InOrder(entries, i, j)} :: InOrder(entries, i, j)
  }

  ghost function EntriesOf(nodes: seq<Node>): seq<Entry> {
    seq(|nodes|, i requires 0 <= i < |nodes| => nodes[i].entry)
  }

  /** The nodes from index `from` on that are tall enough for level `l`: that level, from there on. */
  ghost function TallFrom(chain: seq<Node>, from: nat, l: nat): seq<Node>
    decreases |chain| - from
  {
    if from >= |chain| then []
    else if chain[from].height > l then [chain[from]] + TallFrom(chain, from + 1, l)
    else TallFrom(chain, from + 1, l)
  }

  /** `below` holds of exactly the first `p - 1` entries. */
  ghost predicate SplitsAt(chain: seq<Node>, below: Entry -> bool, p: nat) {
    1 <= p <= |chain| && forall i :: 1 <= i < |chain| ==> (below(chain[i].entry) <==> i < p)
  }

  /** Node `i` is the last one before index `p` that is tall enough for level `l`. */
  ghost predicate LastTallBefore(chain: seq<Node>, p: nat, l: nat, i: nat) {
    i < p <= |chain| && chain[i].height > l && forall m :: i < m < p ==> chain[m].height <= l
  }

  function Insertion(chain: seq<Node>, p: nat, node: Node): seq<Node>
    requires p <= |chain|
  {
    chain[..p] + [node] + chain[p..]
  }

  /** Links that start at or after the insertion point shift by one. */
  lemma {:induction false} NextTallAfter(chain: seq<Node>, p: nat, node: Node, from: nat, l: nat)
    requires p <= from <= |chain|
    ensures NextTall(Insertion(chain, p, node), from + 1, l) == NextTall(chain, from, l) + 1
    decreases |chain| - from
  {
    if from < |chain| {
      assert Insertion(chain, p, node)[from + 1] == chain[from];
      if chain[from].height <= l {
        NextTallAfter(chain, p, node, from + 1, l);
      }
    }
  }

  /** Links that start before it reach the new node when it is the first tall one in their way. */
  lemma {:induction false} NextTallBefore(chain: seq<Node>, p: nat, node: Node, from: nat, l: nat)
    requires from <= p <= |chain|
    ensures NextTall(Insertion(chain, p, node), from, l)
         == (if NextTall(chain, from, l) < p then NextTall(chain, from, l)
             else if node.height > l then p else NextTall(chain, from, l) + 1)
    decreases p - from
  {
    var chain' := Insertion(chain, p, node);
    if from == p {
      assert chain'[p] == node;
      NextTallAfter(chain, p, node, p, l);
    } else {
      assert chain'[from] == chain[from];
      if chain[from].height <= l {
        NextTallBefore(chain, p, node, from + 1, l);
      }
    }
  }

  function BeforeEntry(e: Entry): Entry -> bool { (x: Entry) => Before(x, e) }

  function BeforeKey(key: Bytes): Entry -> bool { (x: Entry) => Less(x.key, key) }

  /** The first node from index `from` on whose entry is not below. */
  ghost function FirstNotBelow(chain: seq<Node>, below: Entry -> bool, from: nat): (p: nat)
    requires from <= |chain|
    ensures from <= p <= |chain|
    ensures forall i :: from <= i < p ==> below(chain[i].entry)
    ensures p < |chain| ==> !below(chain[p].entry)
    decreases |chain| - from
  {
    if from == |chain| || !below(chain[from].entry) then from else FirstNotBelow(chain, below, from + 1)
  }

  lemma KeysAscend(a: Entry, b: Entry, key: Bytes)
    requires !Before(b, a) && !Less(a.key, key)
    ensures !Less(b.key, key)
  {
    LessTotal(a.key, b.key);
    LessTotal(key, a.key);
    AtMostTransitive(key, a.key, b.key);
    LessAsymmetric(key, b.key);
    LessIrreflexive(key);
  }

  lemma SortedNodes(chain: seq<Node>, i: nat, j: nat)
    requires |chain| > 0 && Sorted(EntriesOf(chain[1..])) && 1 <= i < j < |chain|
    ensures !Before(chain[j].entry, chain[i].entry)
  {
    var entries := EntriesOf(chain[1..]);
    assert InOrder(entries, i - 1, j - 1);
  }

  lemma FirstIsNewest(chain: seq<Node>, i: nat, j: nat)
    requires |chain| > 0 && Sorted(EntriesOf(chain[1..])) && 1 <= i <= j < |chain|
    requires chain[i].entry.key == chain[j].entry.key
    ensures chain[j].entry.sequence <= chain[i].entry.sequence
  {
    if i < j {
      SortedNodes(chain, i, j);
    }
  }

  lemma SplitByEntry(chain: seq<Node>, e: Entry, p: nat)
    requires |chain| > 0 && Sorted(EntriesOf(chain[1..])) && p == FirstNotBelow(chain, BeforeEntry(e), 1)
    ensures SplitsAt(chain, BeforeEntry(e), p)
  {
    forall j | p <= j < |chain| ensures !BeforeEntry(e)(chain[j].entry) {
      var x, y := chain[p].entry, chain[j].entry;
      assert !BeforeEntry(e)(x);
      if p < j {
        SortedNodes(chain, p, j);
        BeforeTransitive(e, x, y);
      }
    }
  }

  lemma SplitByKey(chain: seq<Node>, key: Bytes, p: nat)
    requires |chain| > 0 && Sorted(EntriesOf(chain[1..])) && p == FirstNotBelow(chain, BeforeKey(key), 1)
    ensures SplitsAt(chain, BeforeKey(key), p)
  {
    forall j | p <= j < |chain| ensures !BeforeKey(key)(chain[j].entry) {
      var x, y := chain[p].entry, chain[j].entry;
      assert !BeforeKey(key)(x);
      if p < j {
        SortedNodes(chain, p, j);
        KeysAscend(x, y, key);
      }
    }
  }

  lemma SplitOfEntries(chain: seq<Node>, below: Entry -> bool, p: nat)
    requires SplitsAt(chain, below, p)
    ensures forall i :: 0 <= i < |chain| - 1 ==> (below(EntriesOf(chain[1..])[i]) <==> i < p - 1)
  {
    forall i | 0 <= i < |chain| - 1 ensures EntriesOf(chain[1..])[i] == chain[i + 1].entry {
    }
  }

  lemma InsertionEntries(chain: seq<Node>, p: nat, node: Node)
    requires 1 <= p <= |chain|
    ensures EntriesOf(Insertion(chain, p, node)[1..])
         == EntriesOf(chain[1..])[..p - 1] + [node.entry] + EntriesOf(chain[1..])[p - 1..]
  {
  }

  /** How many entries go before `e`. */
  function Position(entries: seq<Entry>, e: Entry): (k: nat)
    ensures k <= |entries|
    ensures forall i :: 0 <= i < k ==> Before(entries[i], e)
    ensures k < |entries| ==> !Before(entries[k], e)
  {
    if entries == [] || !Before(entries[0], e) then 0 else 1 + Position(entries[1..], e)
  }

  /** What an insertion does to the list of entries. */
  function InsertSorted(entries: seq<Entry>, e: Entry): seq<Entry> {
    entries[..Position(entries, e)] + [e] + entries[Position(entries, e)..]
  }

  /** An entry put between what is not after it and what is not before it leaves the list sorted. */
  lemma InsertionSorts(entries: seq<Entry>, e: Entry, k: nat)
    requires Sorted(entries) && k <= |entries|
    requires forall i :: 0 <= i < k ==> !Before(e, entries[i])
    requires forall j :: k <= j < |entries| ==> !Before(entries[j], e)
    ensures Sorted(entries[..k] + [e] + entries[k..])
  {
    var r := entries[..k] + [e] + entries[k..];
    forall i, j ensures InOrder(r, i, j) {
      if 0 <= i < j < |r| {
        assert InOrder(entries, if i < k then i else i - 1, if j < k then j else j - 1);
        assert i < k ==> r[i] == entries[i];
        assert j > k ==> r[j] == entries[j - 1];
        assert i > k ==> r[i] == entries[i - 1];
        assert j < k ==> r[j] == entries[j];
      }
    }
  }

  lemma InsertionAdds(entries: seq<Entry>, e: Entry, k: nat)
    requires k <= |entries|
    ensures multiset(entries[..k] + [e] + entries[k..]) == multiset(entries) + multiset{e}
  {
    assert entries == entries[..k] + entries[k..];
  }

  /** An insertion keeps the order and adds exactly one entry. */
  lemma InsertSortedSorts(entries: seq<Entry>, e: Entry)
    requires Sorted(entries)
    ensures Sorted(InsertSorted(entries, e))
    ensures multiset(InsertSorted(entries, e)) == multiset(entries) + multiset{e}
  {
    var k := Position(entries, e);
    forall i | 0 <= i < k ensures !Before(e, entries[i]) {
      BeforeAsymmetric(e, entries[i]);
    }
    forall j | k <= j < |entries| ensures !Before(entries[j], e) {
      if k < j {
        assert InOrder(entries, k, j);
        BeforeTransitive(e, entries[k], entries[j]);
      }
    }
    InsertionSorts(entries, e, k);
    InsertionAdds(entries, e, k);
  }

  /** The list after inserting entries one after the other. */
  function InsertEach(entries: seq<Entry>, xs: seq<Entry>): seq<Entry> {
    if xs == [] then entries else InsertSorted(InsertEach(entries, xs[..|xs| - 1]), xs[|xs| - 1])
  }

  lemma InsertOneMore(entries: seq<Entry>, xs: seq<Entry>, before: seq<Entry>, e: Entry)
    requires Sorted(before) && multiset(before) == multiset(entries) + multiset(xs)
    ensures Sorted(InsertSorted(before, e))
    ensures multiset(InsertSorted(before, e)) == multiset(entries) + multiset(xs + [e])
  {
    InsertSortedSorts(before, e);
  }

  /** Whatever the order of the insertions, the result is the sort of what was there and what was inserted. */
  lemma {:induction false} InsertEachSorts(entries: seq<Entry>, xs: seq<Entry>)
    requires Sorted(entries)
    ensures Sorted(InsertEach(entries, xs))
    ensures multiset(InsertEach(entries, xs)) == multiset(entries) + multiset(xs)
  {
    if xs != [] {
      var n := |xs| - 1;
      InsertEachSorts(entries, xs[..n]);
      InsertOneMore(entries, xs[..n], InsertEach(entries, xs[..n]), xs[n]);
      assert xs[..n] + [xs[n]] == xs;
    }
  }

  /** Splicing a node in at its split point inserts its entry and adds no other node. */
  lemma InsertedEntries(chain: seq<Node>, p: nat, node: Node)
    requires |chain| > 0 && SplitsAt(chain, BeforeEntry(node.entry), p)
    ensures EntriesOf(Insertion(chain, p, node)[1..]) == InsertSorted(EntriesOf(chain[1..]), node.entry)
    ensures forall n :: n in Insertion(chain, p, node) ==> n in chain || n == node
  {
    var entries := EntriesOf(chain[1..]);
    SplitOfEntries(chain, BeforeEntry(node.entry), p);
    PositionIs(entries, node.entry, p - 1) by {
      assert forall i :: 0 <= i < |entries| ==> (BeforeEntry(node.entry)(entries[i]) <==> i < p - 1);
    }
    InsertionEntries(chain, p, node);
  }

  lemma PositionIs(entries: seq<Entry>, e: Entry, k: nat)
    requires k <= |entries| && forall i :: 0 <= i < |entries| ==> (Before(entries[i], e) <==> i < k)
    ensures Position(entries, e) == k
  {
    var p := Position(entries, e);
    assert p < |entries| ==> !Before(entries[p], e);
    assert k < |entries| ==> !Before(entries[k], e);
  }

  /** The first entry with the key; in a sorted list the one with the highest sequence number. */
  function Newest(entries: seq<Entry>, key: Bytes): Option<Entry> {
    if entries == [] then None
    else if entries[0].key == key then Some(entries[0])
    else Newest(entries[1..], key)
  }

  lemma TailSorted(entries: seq<Entry>)
    requires Sorted(entries) && entries != []
    ensures Sorted(entries[1..])
  {
    forall i, j ensures InOrder(entries[1..], i, j) {
      assert InOrder(entries, i + 1, j + 1);
    }
  }

  /** Newest finds the key whenever it is there, with the highest sequence number any of its entries has. */
  lemma {:induction false} NewestIsNewest(entries: seq<Entry>, key: Bytes)
    requires Sorted(entries)
    ensures Newest(entries, key).None? <==> forall x :: x in entries ==> x.key != key
    ensures Newest(entries, key).Some? ==>
      var e := Newest(entries, key).value;
      e in entries && e.key == key && forall x :: x in entries && x.key == key ==> x.sequence <= e.sequence
  {
    if entries != [] {
      if entries[0].key == key {
        forall x | x in entries && x.key == key ensures x.sequence <= entries[0].sequence {
          var j :| 0 <= j < |entries| && entries[j] == x;
          assert InOrder(entries, 0, j);
        }
      } else {
        TailSorted(entries);
        NewestIsNewest(entries[1..], key);
        assert forall x :: x in entries <==> x == entries[0] || x in entries[1..];
      }
    }
  }

  /** Newest looks past the entries with smaller keys, and only at the first one that is not smaller. */
  lemma {:induction false} NewestAfter(entries: seq<Entry>, key: Bytes, k: nat)
    requires k <= |entries|
    requires forall i :: 0 <= i < k ==> Less(entries[i].key, key)
    requires Sorted(entries)
    requires forall i :: k <= i < |entries| ==> AtMost(key, entries[i].key)
    ensures Newest(entries, key) == if k < |entries| && entries[k].key == key then Some(entries[k]) else None
    decreases |entries|
  {
    LessIrreflexive(key);
    if k > 0 {
      TailSorted(entries);
      NewestAfter(entries[1..], key, k - 1);
    } else if entries != [] && entries[0].key != key {
      forall x | x in entries ensures x.key != key {
        var j :| 0 <= j < |entries| && entries[j] == x;
        assert InOrder(entries, 0, j);
        LessAsymmetric(entries[0].key, key);
      }
      NewestIsNewest(entries, key);
    }
  }

  /** Following a link of level `l` is taking the next element of that level. */
  lemma {:induction false} LevelStep(chain: seq<Node>, from: nat, l: nat)
    requires from <= |chain|
    ensures TallFrom(chain, from, l)
         == var j := NextTall(chain, from, l); if j < |chain| then [chain[j]] + TallFrom(chain, j + 1, l) else []
    decreases |chain| - from
  {
    if from < |chain| && chain[from].height <= l {
      LevelStep(chain, from + 1, l);
    }
  }

  /** `nodes` is level `l` up to and including node `i`. */
  ghost predicate Walked(chain: seq<Node>, nodes: seq<Node>, i: nat, l: nat) {
    i < |chain| && TallFrom(chain, 1, l) == nodes + TallFrom(chain, i + 1, l)
  }

  lemma WalkJoins(level: seq<Node>, nodes: seq<Node>, node: Node, more: seq<Node>)
    requires level == nodes + ([node] + more)
    ensures level == (nodes + [node]) + more
  {
  }

  lemma WalkStep(chain: seq<Node>, nodes: seq<Node>, i: nat, l: nat)
    requires Walked(chain, nodes, i, l)
    ensures var j := NextTall(chain, i + 1, l);
      if j < |chain| then Walked(chain, nodes + [chain[j]], j, l) else TallFrom(chain, 1, l) == nodes
  {
    var j := NextTall(chain, i + 1, l);
    LevelStep(chain, i + 1, l);
    if j < |chain| {
      WalkJoins(TallFrom(chain, 1, l), nodes, chain[j], TallFrom(chain, j + 1, l));
    } else {
      assert nodes + [] == nodes;
    }
  }

  // --- where links lead after an insertion -----------------------------------------------------------------

  lemma {:induction false} NextTallSkips(chain: seq<Node>, from: nat, p: nat, l: nat)
    requires from <= p <= |chain| && forall m :: from <= m < p ==> chain[m].height <= l
    ensures NextTall(chain, from, l) == NextTall(chain, p, l)
    decreases p - from
  {
    if from < p {
      NextTallSkips(chain, from + 1, p, l);
    }
  }

  /** `at[l]` is, for each level of the new node, the node before it: its predecessor when spliced in at index `p`. */
  ghost predicate Predecessors(chain: seq<Node>, p: nat, height: nat, at: seq<nat>) {
    height <= |at| && 1 <= p <= |chain| && forall l :: 0 <= l < height ==> LastTallBefore(chain, p, l, at[l])
  }

  /** Where node `i` points at level `l` once the new node is spliced in at the first `levels` levels. */
  ghost function Target(before: Links, at: seq<nat>, node: Node, levels: nat, i: nat, l: nat): Node?
    requires levels <= |at| && i < |before| && l < |before[i]|
  {
    if l < levels && i == at[l] then node else before[i][l]
  }

  /** `after` is `before` with the new node's links spliced in. */
  ghost predicate Spliced(before: Links, after: Links, p: nat, node: Node, at: seq<nat>) {
    && |after| == |before| + 1 && p <= |before| && node.height <= MAX_HEIGHT && node.height <= |at|
    && (forall i :: 0 <= i < |before| ==> |before[i]| == MAX_HEIGHT)
    && (forall i :: 0 <= i < |after| ==> |after[i]| == MAX_HEIGHT)
    && (forall l :: 0 <= l < node.height ==> at[l] < |before| && after[p][l] == before[at[l]][l])
    && (forall i, l :: 0 <= i < p && 0 <= l < MAX_HEIGHT ==> after[i][l] == Target(before, at, node, node.height, i, l))
    && (forall i, j :: p <= i < |before| && j == i + 1 ==> after[j] == before[i])
  }

  /** The links have been spliced at the first `levels` levels. */
  ghost predicate Relinked(chain: seq<Node>, node: Node, levels: nat, at: seq<nat>, before: Links)
    reads chain, node
  {
    && |before| == |chain| && levels <= MAX_HEIGHT && levels <= |at|
    && |node.next| == MAX_HEIGHT
    && (forall i :: 0 <= i < |chain| ==> |before[i]| == |chain[i].next| == MAX_HEIGHT)
    && (forall l :: 0 <= l < levels ==> at[l] < |chain| && node.next[l] == before[at[l]][l])
    && (forall i, l :: 0 <= i < |chain| && 0 <= l < MAX_HEIGHT ==>
        chain[i].next[l] == Target(before, at, node, levels, i, l))
  }

  /** Nodes from the insertion point on keep their links. */
  lemma RelinkedAfter(chain: seq<Node>, node: Node, p: nat, at: seq<nat>, before: Links, i: nat)
    requires Relinked(chain, node, node.height, at, before) && Predecessors(chain, p, node.height, at)
    requires p <= i < |chain|
    ensures chain[i].next == before[i]
  {
    forall l | 0 <= l < MAX_HEIGHT ensures chain[i].next[l] == before[i][l] {
      assert chain[i].next[l] == Target(before, at, node, node.height, i, l);
      assert l < node.height ==> LastTallBefore(chain, p, l, at[l]);
    }
  }

  lemma RelinkedIsSpliced(chain: seq<Node>, node: Node, p: nat, at: seq<nat>, before: Links)
    requires Relinked(chain, node, node.height, at, before) && Predecessors(chain, p, node.height, at)
    ensures Spliced(before, LinksOf(Insertion(chain, p, node)), p, node, at)
  {
    var chain' := Insertion(chain, p, node);
    var after := LinksOf(chain');
    assert after[p] == node.next;
    forall i | 0 <= i < p ensures after[i] == chain[i].next {
      assert chain'[i] == chain[i];
    }
    forall i, j | p <= i < |before| && j == i + 1 ensures after[j] == before[i] {
      assert chain'[j] == chain[i];
      RelinkedAfter(chain, node, p, at, before, i);
    }
  }

  lemma InsertionNodes(chain: seq<Node>, p: nat, node: Node, j: nat)
    requires p <= |chain| && j <= |chain|
    ensures NodeAt(Insertion(chain, p, node), p) == node
    ensures j < p ==> NodeAt(Insertion(chain, p, node), j) == NodeAt(chain, j)
    ensures p <= j ==> NodeAt(Insertion(chain, p, node), j + 1) == NodeAt(chain, j)
  {
  }

  lemma SpliceBefore(chain: seq<Node>, before: Links, after: Links, p: nat, node: Node, at: seq<nat>, i: nat, l: nat)
    requires Linked(chain, before) && Spliced(before, after, p, node, at) && Predecessors(chain, p, node.height, at)
    requires i < p && l < chain[i].height && chain[i].height <= MAX_HEIGHT
    ensures LinkedAt(Insertion(chain, p, node), after, i, l)
  {
    assert LinkedAt(chain, before, i, l);
    NextTallBefore(chain, p, node, i + 1, l);
    var j := NextTall(chain, i + 1, l);
    InsertionNodes(chain, p, node, j);
    if l < node.height {
      assert LastTallBefore(chain, p, l, at[l]);
      assert j < p ==> i != at[l];
      assert p <= j ==> !(i < at[l]) && !(at[l] < i);
    }
    assert after[i][l] == Target(before, at, node, node.height, i, l);
  }

  lemma SpliceNew(chain: seq<Node>, before: Links, after: Links, p: nat, node: Node, at: seq<nat>, l: nat)
    requires Linked(chain, before) && Spliced(before, after, p, node, at) && Predecessors(chain, p, node.height, at)
    requires l < node.height
    ensures LinkedAt(Insertion(chain, p, node), after, p, l)
  {
    assert LastTallBefore(chain, p, l, at[l]);
    assert LinkedAt(chain, before, at[l], l);
    NextTallAfter(chain, p, node, p, l);
    NextTallSkips(chain, at[l] + 1, p, l);
  }

  lemma SpliceAfter(chain: seq<Node>, before: Links, after: Links, p: nat, node: Node, at: seq<nat>, i: nat, l: nat)
    requires Linked(chain, before) && Spliced(before, after, p, node, at)
    requires p <= i < |chain| && l < chain[i].height
    ensures LinkedAt(Insertion(chain, p, node), after, i + 1, l)
  {
    assert LinkedAt(chain, before, i, l);
    NextTallAfter(chain, p, node, i + 1, l);
  }

  lemma SpliceKeepsLinked(chain: seq<Node>, before: Links, after: Links, p: nat, node: Node, at: seq<nat>)
    requires Linked(chain, before) && Spliced(before, after, p, node, at) && Predecessors(chain, p, node.height, at)
    requires forall i :: 0 <= i < |chain| ==> chain[i].height <= MAX_HEIGHT
    ensures Linked(Insertion(chain, p, node), after)
  {
    var chain' := Insertion(chain, p, node);
    forall i, l | 0 <= i < |chain'| && 0 <= l < chain'[i].height ensures LinkedAt(chain', after, i, l) {
      if i < p {
        SpliceBefore(chain, before, after, p, node, at, i, l);
      } else if i == p {
        SpliceNew(chain, before, after, p, node, at, l);
      } else {
        SpliceAfter(chain, before, after, p, node, at, i - 1, l);
      }
    }
  }

  /** What holds of the chain without looking at the links. */
  ghost predicate Shape(head: Node, chain: seq<Node>, maxHeight: nat) {
    && |chain| > 0 && chain[0] == head && head.height == MAX_HEIGHT
    && Distinct(chain)
    && 1 <= maxHeight <= MAX_HEIGHT
    && (forall i :: 1 <= i < |chain| ==> 1 <= chain[i].height <= maxHeight)
  }

  lemma InsertionKeepsShape(head: Node, chain: seq<Node>, maxHeight: nat, p: nat, node: Node)
    requires Shape(head, chain, maxHeight) && 1 <= p <= |chain|
    requires node !in chain && 1 <= node.height <= maxHeight
    ensures Shape(head, Insertion(chain, p, node), maxHeight)
  {
  }

  /** Relinking around the new node leaves the chain with the node in it linked at every level. */
  lemma RelinkedKeeps(head: Node, chain: seq<Node>, maxHeight: nat, p: nat, node: Node, at: seq<nat>, before: Links)
    requires Shape(head, chain, maxHeight) && Linked(chain, before) && Predecessors(chain, p, node.height, at)
    requires node !in chain && 1 <= node.height <= maxHeight && Relinked(chain, node, node.height, at, before)
    ensures Shape(head, Insertion(chain, p, node), maxHeight)
    ensures Linked(Insertion(chain, p, node), LinksOf(Insertion(chain, p, node)))
  {
    RelinkedIsSpliced(chain, node, p, at, before);
    SpliceKeepsLinked(chain, before, LinksOf(Insertion(chain, p, node)), p, node, at);
    InsertionKeepsShape(head, chain, maxHeight, p, node);
  }

  /** What makes a list of nodes with these links a skip list, the heap apart. */
  ghost predicate Proper(head: Node, chain: seq<Node>, links: Links, maxHeight: nat) {
    Shape(head, chain, maxHeight) && Linked(chain, links) && Sorted(EntriesOf(chain[1..]))
  }

  class SkipList {
    const head: Node
    var maxHeight: nat
    var size: nat
    /** Head, then every node in level-0 order. */
    ghost var chain: seq<Node>
    /** The nodes' links. */
    ghost var links: Links
    /** Every entry inserted so far, in the order of the insertions. */
    ghost var inserted: seq<Entry>

    /** Level 0, which is sorted, holds exactly what was inserted, whatever heights were drawn. */
    ghost predicate HoldsInserted()
      reads this`chain, this`inserted
    {
      multiset(Entries()) == multiset(inserted)
    }

    /** The nodes on the heap have the links recorded for them. */
    ghost predicate Current()
      reads this`chain, this`links, chain
    {
      LinksOf(chain) == links
    }

    ghost predicate Valid()
      reads this`chain, this`links, this`maxHeight, chain
    {
      Current() && Proper(head, chain, links, maxHeight)
    }

    ghost function Entries(): seq<Entry>
      reads this`chain
    {
      if chain == [] then [] else EntriesOf(chain[1..])
    }

    /** In a valid list the links are what they should be. */
    lemma Follow(i: nat, l: nat)
      requires Valid() && i < |chain| && l < chain[i].height
      ensures l < MAX_HEIGHT == |chain[i].next|
      ensures chain[i].next[l] == NodeAt(chain, NextTall(chain, i + 1, l))
    {
      assert LinkedAt(chain, links, i, l);
    }

    constructor ()
      ensures Valid() && HoldsInserted() && inserted == [] && Entries() == [] && size == 0 && fresh(chain)
    {
      var h := new Node(Entry([], [], false, 0), MAX_HEIGHT);
      head := h;
      maxHeight, size := 1, 0;
      chain, links, inserted := [h], [seq(MAX_HEIGHT, _ => null)], [];
    }

    /**
      The descent shared by Insert, Find and Seek: from the top level down, move right while the
      next node is below. `prev[l]` is the last such node tall enough for level `l`.
    */
    method Descend(below: Entry -> bool, top: nat, ghost p: nat)
      returns (prev: seq<Node>, current: Node, ghost at: seq<nat>)
      requires Valid() && maxHeight <= top <= MAX_HEIGHT && SplitsAt(chain, below, p)
      ensures |prev| == top == |at|
      ensures forall l :: 0 <= l < top ==> LastTallBefore(chain, p, l, at[l]) && prev[l] == chain[at[l]]
      ensures current == chain[p - 1]
    {
      current := head;
      prev := seq(top, _ => current);
      at := seq(top, _ => 0);
      ghost var c: nat := 0;
      var level := top;
      while level > 0
        invariant level <= top && c < p && chain[c] == current && current.height >= level
        invariant |prev| == |at| == top
        invariant forall l :: level <= l < top ==> LastTallBefore(chain, p, l, at[l]) && prev[l] == chain[at[l]]
        invariant level < top ==> LastTallBefore(chain, p, level, c)
      {
        level := level - 1;
        current, c := MoveRight(below, level, current, c, p);
        prev, at := prev[level := current], at[level := c];
      }
    }

    /** At one level, move right while the next node is below. */
    method MoveRight(below: Entry -> bool, level: nat, start: Node, ghost from: nat, ghost p: nat)
      returns (current: Node, ghost c: nat)
      requires Valid() && SplitsAt(chain, below, p) && from < p && chain[from] == start && start.height > level
      ensures c < p && chain[c] == current && LastTallBefore(chain, p, level, c)
    {
      current, c := start, from;
      Follow(c, level);
      var next := current.next[level];
      while next != null && below(next.entry)
        invariant c < p && chain[c] == current && current.height > level
        invariant next == NodeAt(chain, NextTall(chain, c + 1, level))
        decreases p - c
      {
        c := NextTall(chain, c + 1, level);
        current := next;
        Follow(c, level);
        next := current.next[level];
      }
      assert NextTall(chain, c + 1, level) >= p;
    }

    /** At each of its levels, `node` takes over the link of the node before it, which then leads to `node`. */
    method Relink(node: Node, prev: seq<Node>, ghost at: seq<nat>, ghost before: Links)
      requires node !in chain && |node.next| == MAX_HEIGHT && Distinct(chain) && before == LinksOf(chain)
      requires forall i :: 0 <= i < |chain| ==> |chain[i].next| == MAX_HEIGHT
      requires node.height <= |prev| == |at| && node.height <= MAX_HEIGHT
      requires forall l :: 0 <= l < |at| ==> at[l] < |chain| && prev[l] == chain[at[l]]
      modifies chain, node
      ensures Relinked(chain, node, node.height, at, before)
    {
      var level := 0;
      while level < node.height
        invariant level <= node.height && Relinked(chain, node, level, at, before)
      {
        node.next := node.next[level := prev[level].next[level]];
        prev[level].next := prev[level].next[level := node];
        level := level + 1;
      }
    }

    /** Find the node's place and splice it in. */
    method InsertNode(node: Node, ghost p: nat)
      requires Valid() && node !in chain && node.next == seq(MAX_HEIGHT, _ => null)
      requires 1 <= node.height <= maxHeight && SplitsAt(chain, BeforeEntry(node.entry), p)
      modifies this`chain, this`links, chain, node
      ensures chain == Insertion(old(chain), p, node) && Current()
      ensures Shape(head, chain, maxHeight) && Linked(chain, links)
    {
      var prev, current;
      ghost var at;
      prev, current, at := Descend(BeforeEntry(node.entry), maxHeight, p);
      ghost var before := LinksOf(chain);
      Relink(node, prev, at, before);
      RelinkedKeeps(head, chain, maxHeight, p, node, at, before);
      chain := Insertion(chain, p, node);
      links := LinksOf(chain);
    }

    /** Adds the node where its entry belongs. */
    method Place(node: Node)
      requires Valid() && node !in chain && node.next == seq(MAX_HEIGHT, _ => null) && 1 <= node.height <= maxHeight
      modifies this`chain, this`links, chain, node
      ensures Valid()
      ensures forall n :: n in chain ==> n in old(chain) || n == node
      ensures Entries() == InsertSorted(old(Entries()), node.entry)
    {
      ghost var p := FirstNotBelow(chain, BeforeEntry(node.entry), 1);
      SplitByEntry(chain, node.entry, p);
      InsertedEntries(chain, p, node);
      InsertSortedSorts(Entries(), node.entry);
      InsertNode(node, p);
    }

    method Raise(height: nat)
      requires Valid() && 1 <= height <= MAX_HEIGHT
      modifies this`maxHeight
      ensures Valid() && height <= maxHeight
    {
      if height > maxHeight {
        maxHeight := height;
      }
    }

    method Count(e: Entry, ghost before: seq<Entry>)
      requires Entries() == InsertSorted(before, e)
      modifies this`inserted, this`size
      ensures inserted == old(inserted) + [e] && size == old(size) + |e.key| + |e.value| + 16
      ensures multiset(before) == multiset(old(inserted)) ==> HoldsInserted()
    {
      InsertionAdds(before, e, Position(before, e));
      inserted := inserted + [e];
      size := size + |e.key| + |e.value| + 16;
    }

    /** For every choice of height: everything stays linked and sorted, and exactly `e` is added, in its place. */
    method Insert(e: Entry, height: nat)
      requires Valid() && 1 <= height <= MAX_HEIGHT
      modifies this, chain
      ensures Valid()
      ensures forall n :: n in chain ==> n in old(chain) || fresh(n)
      ensures Entries() == InsertSorted(old(Entries()), e)
      ensures inserted == old(inserted) + [e] && (old(HoldsInserted()) ==> HoldsInserted())
      ensures size == old(size) + |e.key| + |e.value| + 16
    {
      var node := new Node(e, height);
      Raise(height);
      Place(node);
      Count(e, old(Entries()));
    }

    /** Following the links of level `l` visits exactly the nodes tall enough for it, in order. */
    method WalkLevel(l: nat) returns (nodes: seq<Node>)
      requires Valid() && l < MAX_HEIGHT
      ensures nodes == TallFrom(chain, 1, l)
    {
      nodes := [];
      ghost var i := 0;
      Follow(0, l);
      var next := head.next[l];
      while next != null
        invariant Walked(chain, nodes, i, l) && next == NodeAt(chain, NextTall(chain, i + 1, l))
        decreases |chain| - i
      {
        WalkStep(chain, nodes, i, l);
        i := NextTall(chain, i + 1, l);
        nodes := nodes + [next];
        Follow(i, l);
        next := next.next[l];
      }
      WalkStep(chain, nodes, i, l);
    }

    /** The first node whose key is at least the target, or null. */
    method SeekNode(key: Bytes) returns (node: Node?, ghost p: nat)
      requires Valid()
      ensures 1 <= p <= |chain| && node == NodeAt(chain, p)
      ensures forall i :: 1 <= i < p ==> Less(chain[i].entry.key, key)
      ensures forall i :: p <= i < |chain| ==> AtMost(key, chain[i].entry.key)
    {
      p := FirstNotBelow(chain, BeforeKey(key), 1);
      SplitByKey(chain, key, p);
      var prev, current;
      ghost var at;
      prev, current, at := Descend(BeforeKey(key), maxHeight, p);
      Follow(p - 1, 0);
      node := current.next[0];
      forall i | p <= i < |chain| ensures AtMost(key, chain[i].entry.key) {
        assert !BeforeKey(key)(chain[i].entry);
        LessTotal(key, chain[i].entry.key);
      }
      forall i | 1 <= i < p ensures Less(chain[i].entry.key, key) {
        assert BeforeKey(key)(chain[i].entry);
      }
    }

    method Find(key: Bytes) returns (result: Option<Entry>)
      requires Valid()
      ensures result == Newest(Entries(), key)
    {
      var candidate;
      ghost var p;
      candidate, p := SeekNode(key);
      NewestAfter(Entries(), key, p - 1);
      if candidate == null || candidate.entry.key != key {
        return None;
      }
      var best := candidate.entry;
      ghost var i := p;
      while candidate != null && candidate.entry.key == key
        invariant p <= i <= |chain| && candidate == NodeAt(chain, i) && best == chain[p].entry
        decreases |chain| - i
      {
        var e := candidate.entry;
        FirstIsNewest(chain, p, i);
        if e.sequence > best.sequence {
          best := e;
        }
        Follow(i, 0);
        candidate := candidate.next[0];
        i := i + 1;
      }
      return Some(best);
    }
  }

  /** The iterator over a list: `current` is a node, or null when exhausted. */
  class Iterator {
    const list: SkipList
    var current: Node?

    constructor (list: SkipList)
      ensures this.list == list && current == list.head
    {
      this.list := list;
      current := list.head;
    }

    method SeekToFirst()
      requires list.Valid()
      modifies this
      ensures current == NodeAt(list.chain, 1)
    {
      list.Follow(0, 0);
      current := list.head.next[0];
    }

    method Seek(key: Bytes) returns (ghost p: nat)
      requires list.Valid()
      modifies this
      ensures 1 <= p <= |list.chain| && current == NodeAt(list.chain, p)
      ensures forall i :: 1 <= i < p ==> Less(list.chain[i].entry.key, key)
      ensures forall i :: p <= i < |list.chain| ==> AtMost(key, list.chain[i].entry.key)
    {
      current, p := list.SeekNode(key);
    }

    method Next(ghost i: nat)
      requires list.Valid() && current == NodeAt(list.chain, i)
      modifies this
      ensures current == NodeAt(list.chain, i + 1)
    {
      if current == null {
        return;
      }
      list.Follow(i, 0);
      current := current.next[0];
    }
  }
}
