/** Directed graphs as adjacency maps: paths, reachability, cycles and topological orders. */
module Graph {
  import opened Sorting

  type Adjacency = map<string, set<string>>

  /** `adjacency.get(node, set())`. */
  function Next(g: Adjacency, n: string): set<string> { if n in g then g[n] else {} }

  /** A walk along at least one edge. */
  ghost predicate IsPath(g: Adjacency, p: seq<string>) {
    |p| >= 2 && forall i :: 0 <= i < |p| - 1 ==> p[i + 1] in Next(g, p[i])
  }

  ghost predicate Joins(g: Adjacency, p: seq<string>, a: string, b: string) {
    IsPath(g, p) && p[0] == a && p[|p| - 1] == b
  }

  /** Transitive closure, not reflexive. */
  ghost predicate Reaches(g: Adjacency, a: string, b: string) {
    exists p :: Joins(g, p, a, b)
  }

  lemma EdgeReaches(g: Adjacency, a: string, b: string)
    requires b in Next(g, a)
    ensures Reaches(g, a, b)
  {
    assert Joins(g, [a, b], a, b);
  }

  lemma ReachesThenEdge(g: Adjacency, a: string, b: string, c: string)
    requires Reaches(g, a, b) && c in Next(g, b)
    ensures Reaches(g, a, c)
  {
    var p :| Joins(g, p, a, b);
    assert Joins(g, p + [c], a, c);
  }

  /** A set that holds the successors of `a` and of its own members holds all that `a` reaches. */
  lemma {:induction false} ClosedHoldsPath(g: Adjacency, p: seq<string>, closed: set<string>)
    requires IsPath(g, p)
    requires Next(g, p[0]) <= closed && forall n :: n in closed ==> Next(g, n) <= closed
    ensures p[|p| - 1] in closed
    decreases |p|
  {
    if |p| > 2 {
      ClosedHoldsPath(g, p[1..], closed);
    }
  }

  lemma ClosedHoldsReach(g: Adjacency, a: string, b: string, closed: set<string>)
    requires Reaches(g, a, b)
    requires Next(g, a) <= closed && forall n :: n in closed ==> Next(g, n) <= closed
    ensures b in closed
  {
    var p :| Joins(g, p, a, b);
    ClosedHoldsPath(g, p, closed);
  }

  // ----- Edges turned round -----

  ghost predicate Mirror(g: Adjacency, h: Adjacency) {
    forall a, b :: b in Next(g, a) <==> a in Next(h, b)
  }

  lemma {:induction false} MirrorReaches(g: Adjacency, h: Adjacency, a: string, b: string)
    requires Mirror(g, h) && Reaches(g, a, b)
    ensures Reaches(h, b, a)
  {
    var p :| Joins(g, p, a, b);
    var q := seq(|p|, i requires 0 <= i < |p| => p[|p| - 1 - i]);
    forall i | 0 <= i < |q| - 1
      ensures q[i + 1] in Next(h, q[i])
    {
      var j := |p| - 2 - i;
      assert p[j + 1] in Next(g, p[j]);
    }
    assert Joins(h, q, b, a);
  }

  // ----- Breadth-first search -----

  function Targets(g: Adjacency): set<string> {
    set a, b | a in g && b in g[a] :: b
  }

  lemma NextIsTarget(g: Adjacency, v: string)
    ensures Next(g, v) <= Targets(g)
  {
  }

  /** Everything seen is reachable, and every edge out of an expanded node leads to something seen. */
  ghost predicate Searching(g: Adjacency, start: string, visited: set<string>, queue: seq<string>) {
    && (forall n :: n in visited || n in queue ==> Reaches(g, start, n))
    && (forall n :: n in Next(g, start) ==> n in visited || n in queue)
    && (forall v, n :: v in visited && n in Next(g, v) ==> n in visited || n in queue)
  }

  lemma SearchExpands(g: Adjacency, start: string, visited: set<string>, queue: seq<string>, node: string, more: seq<string>)
    requires Searching(g, start, visited, queue + [node])
    requires forall n :: n in more <==> n in Next(g, node)
    ensures Searching(g, start, visited + {node}, queue + more)
  {
    assert node in queue + [node];
    forall n | n in more ensures Reaches(g, start, n) { ReachesThenEdge(g, start, node, n); }
    hide Reaches;
  }

  lemma SearchSkips(g: Adjacency, start: string, visited: set<string>, queue: seq<string>, node: string)
    requires Searching(g, start, visited, queue + [node]) && node in visited
    ensures Searching(g, start, visited, queue)
  {
    hide Reaches;
  }

  /** `_bfs`: the work list is popped from its end; a node is expanded once. */
  method Bfs(start: string, g: Adjacency) returns (visited: set<string>)
    ensures forall n :: n in visited <==> Reaches(g, start, n)
  {
    hide Reaches, Distinct, Targets, Searching;
    visited := {};
    var queue := Listing(Next(g, start));
    NextIsTarget(g, start);
    SearchStarts(g, start, queue);
    while queue != []
      invariant Searching(g, start, visited, queue)
      invariant visited <= Targets(g) && forall n :: n in queue ==> n in Targets(g)
      decreases |Targets(g) - visited|, |queue|
    {
      var node := queue[|queue| - 1];
      assert queue == queue[..|queue| - 1] + [node];
      queue := queue[..|queue| - 1];
      if node in visited {
        SearchSkips(g, start, visited, queue, node);
      } else {
        SmallerSet(Targets(g) - (visited + {node}), Targets(g) - visited);
        var more := Listing(Next(g, node));
        NextIsTarget(g, node);
        SearchExpands(g, start, visited, queue, node, more);
        visited := visited + {node};
        queue := queue + more;
      }
    }
    SearchEnds(g, start, visited);
  }

  lemma SearchStarts(g: Adjacency, start: string, queue: seq<string>)
    requires forall n :: n in queue <==> n in Next(g, start)
    ensures Searching(g, start, {}, queue)
  {
    forall n | n in queue ensures Reaches(g, start, n) { EdgeReaches(g, start, n); }
  }

  lemma SearchEnds(g: Adjacency, start: string, visited: set<string>)
    requires Searching(g, start, visited, [])
    ensures forall n :: n in visited <==> Reaches(g, start, n)
  {
    forall n | Reaches(g, start, n) ensures n in visited { ClosedHoldsReach(g, start, n, visited); }
  }

  lemma SmallerSet(a: set<string>, b: set<string>)
    requires a < b
    ensures |a| < |b|
  {
    assert b == a + (b - a);
  }

  // ----- Topological order -----

  /** Every node once, and after all its predecessors. */
  ghost predicate IsTopological(preds: Adjacency, order: seq<string>) {
    && Distinct(order)
    && (forall n :: n in order <==> n in preds)
    && (forall i, p :: 0 <= i < |order| && p in preds[order[i]] ==> p in order[..i])
  }

  ghost predicate Acyclic(preds: Adjacency) { forall n :: !Reaches(preds, n, n) }

  /** Along the edges towards predecessors, positions in the order only fall. */
  lemma {:induction false} PathDescends(preds: Adjacency, order: seq<string>, p: seq<string>, i: nat)
    requires IsTopological(preds, order) && IsPath(preds, p)
    requires i < |order| && order[i] == p[0]
    ensures p[|p| - 1] in order[..i]
    decreases |p|
  {
    assert p[1] in Next(preds, p[0]);
    if |p| > 2 {
      var j :| 0 <= j < i && order[j] == p[1];
      PathDescends(preds, order, p[1..], j);
      assert order[..j] <= order[..i];
      var k :| 0 <= k < j && order[k] == p[|p| - 1];
      assert order[..i][k] == p[|p| - 1];
    }
  }

  lemma TopologicalReach(preds: Adjacency, order: seq<string>, i: nat, m: string)
    requires IsTopological(preds, order) && i < |order| && Reaches(preds, order[i], m)
    ensures m in order[..i]
  {
    var p :| Joins(preds, p, order[i], m);
    PathDescends(preds, order, p, i);
  }

  lemma TopologicalIsAcyclic(preds: Adjacency, order: seq<string>)
    requires IsTopological(preds, order)
    ensures Acyclic(preds)
  {
    forall n
      ensures !Reaches(preds, n, n)
    {
      if Reaches(preds, n, n) {
        var p :| Joins(preds, p, n, n);
        assert p[1] in Next(preds, n);
        var i :| 0 <= i < |order| && order[i] == n;
        TopologicalReach(preds, order, i, n);
      }
    }
  }

  // ----- A finite graph without a source has a cycle -----

  lemma {:induction false} DistinctFitsIn(p: seq<string>, s: set<string>)
    requires Distinct(p) && forall x :: x in p ==> x in s
    ensures |p| <= |s|
    decreases |p|
  {
    if p != [] {
      var last := p[|p| - 1];
      assert p == p[..|p| - 1] + [last];
      DistinctFitsIn(p[..|p| - 1], s - {last});
    }
  }

  /** Walk `k` steps back inside `s`. */
  lemma {:induction false} WalkBack(preds: Adjacency, s: set<string>, start: string, k: nat) returns (p: seq<string>)
    requires start in s && forall n :: n in s ==> Next(preds, n) * s != {}
    ensures |p| == k + 1 && p[0] == start
    ensures forall x :: x in p ==> x in s
    ensures forall i :: 0 <= i < k ==> p[i + 1] in Next(preds, p[i])
  {
    p := [start];
    for i := 0 to k
      invariant |p| == i + 1 && p[0] == start
      invariant forall x :: x in p ==> x in s
      invariant forall j :: 0 <= j < i ==> p[j + 1] in Next(preds, p[j])
    {
      assert p[i] in p;
      assert Next(preds, p[i]) * s != {};
      var n :| n in Next(preds, p[i]) * s;
      p := p + [n];
    }
  }

  lemma StuckIsCyclic(preds: Adjacency, s: set<string>)
    requires s != {} && forall n :: n in s ==> Next(preds, n) * s != {}
    ensures !Acyclic(preds)
  {
    var start :| start in s;
    var p := WalkBack(preds, s, start, |s|);
    if Distinct(p) {
      DistinctFitsIn(p, s);
    }
    var i, j :| 0 <= i < j < |p| && p[i] == p[j];
    LoopInWalk(preds, p, i, j);
  }

  lemma LoopInWalk(preds: Adjacency, p: seq<string>, i: nat, j: nat)
    requires i < j < |p| && p[i] == p[j]
    requires forall k :: 0 <= k < |p| - 1 ==> p[k + 1] in Next(preds, p[k])
    ensures Reaches(preds, p[i], p[i])
  {
    var q := p[i..j + 1];
    forall k | 0 <= k < |q| - 1
      ensures q[k + 1] in Next(preds, q[k])
    {
      assert p[i + k + 1] in Next(preds, p[i + k]);
    }
    assert Joins(preds, q, p[i], p[i]);
  }
}
