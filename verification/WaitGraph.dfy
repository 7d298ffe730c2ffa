/**
  The waits-for graph of the lock manager and the cycle finder that walks it.

  A transaction waits for at most one key and a key has at most one owner, so "waits on"
  is a finite partial function: a node outside the map is not waiting.
*/
module WaitGraph {
  import opened Options

  type Node = string
  type Graph = map<Node, Node>

  /** The node reached from `start` after following `n` waits, or None when the walk left the waiting nodes. */
  function Walk(g: Graph, start: Node, n: nat): Option<Node> {
    if n == 0 then Some(start)
    else match Walk(g, start, n - 1)
      case None => None
      case Some(x) => if x in g then Some(g[x]) else None
  }

  /** Following the wait function from `start` never reaches a node that is not waiting. */
  ghost predicate Endless(g: Graph, start: Node) {
    forall n: nat :: Walk(g, start, n).Some?
  }

  ghost predicate Reaches(g: Graph, start: Node, target: Node) {
    exists n: nat :: Walk(g, start, n) == Some(target)
  }

  /** `x` lies on a cycle: some positive number of waits leads back to it. */
  ghost predicate OnCycle(g: Graph, x: Node) {
    exists n: nat :: n > 0 && Walk(g, x, n) == Some(x)
  }

  ghost function CycleNodes(g: Graph): set<Node> {
    set x | x in g && OnCycle(g, x)
  }

  predicate Distinct(c: seq<Node>) {
    forall i, j :: 0 <= i < j < |c| ==> c[i] != c[j]
  }

  function Successor(c: seq<Node>, i: nat): Node
    requires i < |c|
  {
    if i + 1 < |c| then c[i + 1] else c[0]
  }

  predicate WaitsOnSuccessor(g: Graph, c: seq<Node>, i: nat)
    requires i < |c|
  {
    c[i] in g && g[c[i]] == Successor(c, i)
  }

  /** Distinct nodes, each waiting on the next one, the last one waiting on the first. */
  predicate SimpleCycle(g: Graph, c: seq<Node>) {
    && |c| > 0
    && Distinct(c)
    && forall i :: 0 <= i < |c| ==> WaitsOnSuccessor(g, c, i)
  }

  lemma {:induction false} WalkAppends(g: Graph, a: Node, m: nat, b: Node, n: nat)
    requires Walk(g, a, m) == Some(b)
    ensures Walk(g, a, m + n) == Walk(g, b, n)
  {
    if n > 0 {
      WalkAppends(g, a, m, b, n - 1);
    }
  }

  lemma {:induction false} WalkPrefix(g: Graph, a: Node, m: nat, n: nat)
    requires m <= n && Walk(g, a, n).Some?
    ensures Walk(g, a, m).Some?
    decreases n
  {
    if m < n {
      WalkPrefix(g, a, m, n - 1);
    }
  }

  /** From position `i` of a cycle every walk stays on the cycle. */
  lemma {:induction false} CycleWalk(g: Graph, c: seq<Node>, i: nat, n: nat)
    requires SimpleCycle(g, c) && i < |c|
    ensures Walk(g, c[i], n).Some? && Walk(g, c[i], n).value in c
  {
    if n > 0 {
      CycleWalk(g, c, i, n - 1);
      var x := Walk(g, c[i], n - 1).value;
      var j :| 0 <= j < |c| && c[j] == x;
      assert WaitsOnSuccessor(g, c, j);
    }
  }

  lemma {:induction false} CycleForward(g: Graph, c: seq<Node>, i: nat, n: nat)
    requires SimpleCycle(g, c) && i + n < |c|
    ensures Walk(g, c[i], n) == Some(c[i + n])
  {
    if n > 0 {
      CycleForward(g, c, i, n - 1);
      assert WaitsOnSuccessor(g, c, i + n - 1);
    }
  }

  /** On a simple cycle every member reaches every member, itself included after at least one wait. */
  lemma CycleReaches(g: Graph, c: seq<Node>, i: nat, j: nat) returns (n: nat)
    requires SimpleCycle(g, c) && i < |c| && j < |c|
    ensures n > 0 && Walk(g, c[i], n) == Some(c[j])
  {
    var last := |c| - 1;
    CycleForward(g, c, i, last - i);
    assert WaitsOnSuccessor(g, c, last);
    assert Walk(g, c[i], last - i + 1) == Some(c[0]);
    WalkAppends(g, c[i], last - i + 1, c[0], j);
    CycleForward(g, c, 0, j);
    n := last - i + 1 + j;
  }

  lemma CycleMembersOnCycle(g: Graph, c: seq<Node>)
    requires SimpleCycle(g, c)
    ensures forall x :: x in c ==> OnCycle(g, x)
  {
    forall x | x in c ensures OnCycle(g, x) {
      var i :| 0 <= i < |c| && c[i] == x;
      var n := CycleReaches(g, c, i, i);
    }
  }

  lemma ReachingACycleIsEndless(g: Graph, start: Node, c: seq<Node>)
    requires SimpleCycle(g, c) && Reaches(g, start, c[0])
    ensures Endless(g, start)
  {
    var k: nat :| Walk(g, start, k) == Some(c[0]);
    forall n: nat ensures Walk(g, start, n).Some? {
      if n <= k {
        WalkPrefix(g, start, n, k);
      } else {
        WalkAppends(g, start, k, c[0], n - k);
        CycleWalk(g, c, 0, n - k);
      }
    }
  }

  predicate PathStep(g: Graph, path: seq<Node>, i: nat)
    requires i + 1 < |path|
  {
    path[i] in g && g[path[i]] == path[i + 1]
  }

  predicate PathFrom(g: Graph, start: Node, path: seq<Node>) {
    && |path| > 0
    && path[0] == start
    && forall i :: 0 <= i < |path| - 1 ==> PathStep(g, path, i)
  }

  lemma {:induction false} PathIsWalk(g: Graph, start: Node, path: seq<Node>, n: nat)
    requires PathFrom(g, start, path) && n < |path|
    ensures Walk(g, start, n) == Some(path[n])
  {
    if n > 0 {
      PathIsWalk(g, start, path, n - 1);
      assert PathStep(g, path, n - 1);
    }
  }

  /** A path that ends in a node that does not wait refutes endlessness. */
  lemma PathStops(g: Graph, start: Node, path: seq<Node>)
    requires PathFrom(g, start, path) && path[|path| - 1] !in g
    ensures !Endless(g, start)
  {
    PathIsWalk(g, start, path, |path| - 1);
    assert Walk(g, start, |path|) == None;
  }

  lemma PathGrows(g: Graph, start: Node, path: seq<Node>)
    requires PathFrom(g, start, path) && path[|path| - 1] in g
    ensures PathFrom(g, start, path + [g[path[|path| - 1]]])
  {
    var longer := path + [g[path[|path| - 1]]];
    forall i | 0 <= i < |longer| - 1 ensures PathStep(g, longer, i) {
      assert i < |path| - 1 ==> PathStep(g, path, i);
    }
  }

  /** A path whose last node waits on one of its own nodes ends in a simple cycle. */
  lemma PathClosesCycle(g: Graph, start: Node, path: seq<Node>, k: nat)
    requires PathFrom(g, start, path) && 0 < k < |path| && Distinct(path[1..])
    requires path[|path| - 1] in g && g[path[|path| - 1]] == path[k]
    ensures SimpleCycle(g, path[k..]) && Endless(g, start) && Reaches(g, start, path[k])
  {
    var c := path[k..];
    forall i, j | 0 <= i < j < |c| ensures c[i] != c[j] {
      assert c[i] == path[1..][k + i - 1] && c[j] == path[1..][k + j - 1];
    }
    forall i | 0 <= i < |c| ensures WaitsOnSuccessor(g, c, i) {
      assert k + i < |path| - 1 ==> PathStep(g, path, k + i);
    }
    PathIsWalk(g, start, path, k);
    ReachingACycleIsEndless(g, start, c);
  }

  /** The index maps exactly the nodes stepped onto, each to its only position on the path. */
  ghost predicate Indexed(index: map<Node, nat>, path: seq<Node>) {
    && |path| > 0
    && Distinct(path[1..])
    && (forall i :: 0 < i < |path| ==> path[i] in index)
    && (forall x :: x in index ==> 0 < index[x] < |path| && path[index[x]] == x)
  }

  lemma IndexedGrows(index: map<Node, nat>, path: seq<Node>, next: Node)
    requires Indexed(index, path) && next !in index
    ensures Indexed(index[next := |path|], path + [next])
  {
    assert (path + [next])[1..] == path[1..] + [next];
    assert forall i :: 0 <= i < |path[1..]| ==> path[1..][i] == path[i + 1];
  }

  /**
    Walks the waits from `start`, indexing every node it steps onto (the start node itself is
    indexed only when the walk comes back to it). The nodes waited on but not yet indexed run out.
  */
  method DetectDeadlockCycle(start: Node, g: Graph) returns (cycle: seq<Node>, detected: bool)
    ensures detected <==> Endless(g, start)
    ensures detected ==> SimpleCycle(g, cycle) && Reaches(g, start, cycle[0])
    ensures !detected ==> cycle == []
  {
    var pathIndex: map<Node, nat> := map[];
    var path := [start];
    var current := start;
    while true
      invariant PathFrom(g, start, path) && current == path[|path| - 1]
      invariant Indexed(pathIndex, path)
      decreases |g.Values - pathIndex.Keys|
    {
      if current !in g {
        PathStops(g, start, path);
        return [], false;
      }
      var next := g[current];
      if next in pathIndex {
        PathClosesCycle(g, start, path, pathIndex[next]);
        return path[pathIndex[next]..], true;
      }
      ghost var unseen := g.Values - pathIndex.Keys;
      PathGrows(g, start, path);
      IndexedGrows(pathIndex, path, next);
      pathIndex := pathIndex[next := |path|];
      path := path + [next];
      current := next;
      assert next in unseen && g.Values - pathIndex.Keys == unseen - {next};
    }
  }

  // --- breaking a cycle ---------------------------------------------------------------------

  /**
    The graph after `victim` stopped waiting and gave up everything others waited for: its own
    edge is gone, and the edges that led to it now lead to `sink`, which does not wait.
  */
  function WithoutNode(g: Graph, victim: Node, sink: Node): Graph {
    map x | x in g && x != victim :: if g[x] == victim then sink else g[x]
  }

  lemma {:induction false} WalkWithout(g: Graph, victim: Node, sink: Node, a: Node, n: nat)
    requires sink !in g && victim != sink
    requires Walk(WithoutNode(g, victim, sink), a, n).Some?
    ensures Walk(WithoutNode(g, victim, sink), a, n).value == sink
         || Walk(WithoutNode(g, victim, sink), a, n) == Walk(g, a, n)
    ensures n > 0 ==> Walk(WithoutNode(g, victim, sink), a, n).value != victim
  {
    if n > 0 {
      WalkWithout(g, victim, sink, a, n - 1);
    }
  }

  lemma NoNewCycle(g: Graph, victim: Node, sink: Node, x: Node)
    requires sink !in g && victim != sink
    requires OnCycle(WithoutNode(g, victim, sink), x)
    ensures OnCycle(g, x) && x != victim && x in WithoutNode(g, victim, sink)
  {
    var h := WithoutNode(g, victim, sink);
    var n: nat :| n > 0 && Walk(h, x, n) == Some(x);
    WalkPrefix(h, x, 1, n);
    WalkWithout(g, victim, sink, x, n);
  }

  /** Every walk that used to pass through the victim now stops. */
  lemma {:induction false} WalkToVictimStops(g: Graph, victim: Node, sink: Node, a: Node, n: nat)
    requires sink !in g && victim != sink
    requires Walk(g, a, n) == Some(victim)
    ensures !Endless(WithoutNode(g, victim, sink), a)
    decreases n
  {
    var h := WithoutNode(g, victim, sink);
    if n == 0 {
      assert Walk(h, a, 1) == None;
    } else {
      FirstStep(g, a, n);
      var b := g[a];
      if a == victim {
        assert Walk(h, a, 1) == None;
      } else if b == victim {
        assert Walk(h, a, 1) == Some(sink);
        assert Walk(h, a, 2) == None;
      } else {
        WalkToVictimStops(g, victim, sink, b, n - 1);
        var m: nat :| Walk(h, b, m) == None;
        assert Walk(h, a, 1) == Some(b);
        WalkAppends(h, a, 1, b, m);
      }
    }
  }

  lemma FirstStep(g: Graph, a: Node, n: nat)
    requires n > 0 && Walk(g, a, n).Some?
    ensures a in g && Walk(g, g[a], n - 1) == Walk(g, a, n)
  {
    WalkPrefix(g, a, 1, n);
    WalkAppends(g, a, 1, g[a], n - 1);
  }

  /**
    Removing one member of a cycle: no node joins a cycle, strictly fewer nodes lie on cycles,
    and the walk from every node that led into the cycle is finite afterwards.
  */
  lemma BreakingACycle(g: Graph, c: seq<Node>, victim: Node, sink: Node)
    requires sink !in g && victim != sink
    requires SimpleCycle(g, c) && victim in c
    ensures CycleNodes(WithoutNode(g, victim, sink)) <= CycleNodes(g) - {victim}
    ensures |CycleNodes(WithoutNode(g, victim, sink))| < |CycleNodes(g)|
    ensures forall x :: Reaches(g, x, c[0]) ==> !Endless(WithoutNode(g, victim, sink), x)
    ensures forall x :: x in c ==> !Endless(WithoutNode(g, victim, sink), x)
  {
    var h := WithoutNode(g, victim, sink);
    var iv :| 0 <= iv < |c| && c[iv] == victim;
    CycleMembersOnCycle(g, c);
    forall x | OnCycle(h, x) ensures OnCycle(g, x) && x != victim && x in h {
      NoNewCycle(g, victim, sink, x);
    }
    assert WaitsOnSuccessor(g, c, iv);
    assert victim in CycleNodes(g);
    SmallerSubset(CycleNodes(h), CycleNodes(g) - {victim});
    assert |CycleNodes(g) - {victim}| == |CycleNodes(g)| - 1;
    forall x | Reaches(g, x, c[0]) ensures !Endless(h, x) {
      var k: nat :| Walk(g, x, k) == Some(c[0]);
      var n := CycleReaches(g, c, 0, iv);
      WalkAppends(g, x, k, c[0], n);
      WalkToVictimStops(g, victim, sink, x, k + n);
    }
    forall x | x in c ensures Reaches(g, x, c[0]) {
      var i :| 0 <= i < |c| && c[i] == x;
      var n := CycleReaches(g, c, i, 0);
    }
  }

  lemma {:induction false} SmallerSubset(a: set<Node>, b: set<Node>)
    requires a <= b
    ensures |a| <= |b|
  {
    if x :| x in a {
      SmallerSubset(a - {x}, b - {x});
    }
  }
}
