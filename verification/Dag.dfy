/** The project graph: construction, selection, and the batches that may run in parallel. */
module Dag {
  import opened Text
  import opened Sorting
  import opened Graph

  // ----- graphlib.TopologicalSorter -----

  /** Nodes whose predecessors are all done and that were not handed out yet. */
  function ReadySet(g: Adjacency, handed: set<string>, finished: set<string>): set<string> {
    set n | n in g && n !in handed && g[n] <= finished
  }

  ghost predicate ClosedUnderPredecessors(g: Adjacency) { forall n :: n in g ==> g[n] <= g.Keys }

  lemma SomethingIsReady(g: Adjacency, finished: set<string>)
    requires Acyclic(g) && ClosedUnderPredecessors(g) && finished <= g.Keys
    requires ReadySet(g, finished, finished) == {}
    ensures finished == g.Keys
  {
    var rest := g.Keys - finished;
    assert g.Keys == finished + rest;
    if rest != {} {
      forall n | n in rest
        ensures Next(g, n) * rest != {}
      {
        assert n !in ReadySet(g, finished, finished);
        var p :| p in g[n] && p !in finished;
        assert p in Next(g, n) * rest;
      }
      StuckIsCyclic(g, rest);
    }
  }

  class TopologicalSorter {
    const graph: Adjacency
    var handed: set<string>
    var finished: set<string>

    ghost predicate Valid()
      reads this
    {
      finished <= handed <= graph.Keys && ClosedUnderPredecessors(graph)
    }

    constructor (graph: Adjacency)
      requires ClosedUnderPredecessors(graph)
      ensures Valid() && this.graph == graph && handed == {} && finished == {}
    {
      this.graph := graph;
      handed, finished := {}, {};
    }

    /** `prepare` raises `CycleError` exactly on a graph with a cycle. */
    method Prepare() returns (acyclic: bool)
      requires Valid()
      ensures acyclic <==> Acyclic(graph)
    {
      var placed: set<string> := {};
      ghost var order: seq<string> := [];
      var ready := ReadySet(graph, placed, placed);
      while ready != {}
        invariant placed <= graph.Keys && Distinct(order) && ready == ReadySet(graph, placed, placed)
        invariant forall n :: n in order <==> n in placed
        invariant forall i, p :: 0 <= i < |order| && p in graph[order[i]] ==> p in order[..i]
        decreases graph.Keys - placed
      {
        var n :| n in ready;
        DistinctSnoc(order, n);
        assert forall i :: 0 <= i <= |order| ==> (order + [n])[..i] == order[..i];
        order, placed := order + [n], placed + {n};
        ready := ReadySet(graph, placed, placed);
      }
      acyclic := placed == graph.Keys;
      if acyclic {
        assert IsTopological(graph, order);
        TopologicalIsAcyclic(graph, order);
      } else if Acyclic(graph) {
        SomethingIsReady(graph, placed);
      }
    }

    predicate IsActive()
      reads this
    {
      finished != handed || ReadySet(graph, handed, finished) != {}
    }

    method GetReady() returns (nodes: seq<string>)
      requires Valid()
      modifies this
      ensures Valid() && finished == old(finished)
      ensures handed == old(handed) + old(ReadySet(graph, handed, finished))
      ensures Distinct(nodes) && forall n :: n in nodes <==> n in old(ReadySet(graph, handed, finished))
    {
      nodes := Listing(ReadySet(graph, handed, finished));
      handed := handed + ReadySet(graph, handed, finished);
    }

    method Done(node: string)
      requires Valid() && node in handed && node !in finished
      modifies this
      ensures Valid() && handed == old(handed) && finished == old(finished) + {node}
    {
      finished := finished + {node};
    }

    /** `done(*nodes)`. */
    method DoneAll(nodes: seq<string>)
      requires Valid() && Distinct(nodes) && forall n :: n in nodes ==> n in handed && n !in finished
      modifies this
      ensures Valid() && handed == old(handed)
      ensures forall n :: n in finished <==> n in old(finished) || n in nodes
    {
      for k := 0 to |nodes|
        invariant Valid() && handed == old(handed)
        invariant forall n :: n in finished <==> n in old(finished) || n in nodes[..k]
      {
        assert nodes[k] !in nodes[..k];
        assert nodes[..k + 1] == nodes[..k] + [nodes[k]];
        Done(nodes[k]);
      }
      assert nodes[..|nodes|] == nodes;
    }
  }

  lemma TopologicalAppend(g: Adjacency, order: seq<string>, more: seq<string>)
    requires Distinct(order) && Distinct(more) && (forall n :: n in order + more ==> n in g)
    requires forall i, p :: 0 <= i < |order| && p in g[order[i]] ==> p in order[..i]
    requires forall n :: n in more ==> n !in order && forall p :: p in g[n] ==> p in order
    ensures Distinct(order + more)
    ensures forall i, p :: 0 <= i < |order + more| && p in g[(order + more)[i]] ==> p in (order + more)[..i]
  {
    var both := order + more;
    assert forall i :: 0 <= i < |order| ==> both[i] in order;
    assert forall i :: |order| <= i < |both| ==> both[i] in more;
    forall i, p | 0 <= i < |both| && p in g[both[i]]
      ensures p in both[..i]
    {
      if i < |order| {
        assert both[..i] == order[..i];
      } else {
        assert order <= both[..i];
      }
    }
  }

  /** `list(TopologicalSorter(graph).static_order())`, `None` standing for `CycleError`. */
  method StaticOrder(g: Adjacency) returns (r: Option<seq<string>>)
    requires ClosedUnderPredecessors(g)
    ensures r.Some? <==> Acyclic(g)
    ensures r.Some? ==> IsTopological(g, r.value)
  {
    var sorter := new TopologicalSorter(g);
    var acyclic := sorter.Prepare();
    if !acyclic { return None; }
    var order: seq<string> := [];
    while sorter.IsActive()
      invariant sorter.Valid() && fresh(sorter) && sorter.finished == sorter.handed
      invariant Distinct(order) && forall n :: n in order <==> n in sorter.finished
      invariant forall i, p :: 0 <= i < |order| && p in g[order[i]] ==> p in order[..i]
      decreases g.Keys - sorter.handed
    {
      var group := sorter.GetReady();
      TopologicalAppend(g, order, group);
      order := order + group;
      sorter.DoneAll(group);
      assert sorter.finished == sorter.handed;
    }
    SomethingIsReady(g, sorter.finished);
    return Some(order);
  }

  // ----- Parallel batches -----

  function Restrict(preds: Adjacency, names: set<string>): Adjacency {
    map n | n in names && n in preds :: preds[n] * names
  }

  /** Every node in exactly one batch; its predecessors all in earlier ones and, unless it is in
      the first batch, one of them in the batch just before. */
  ghost predicate Generations(batches: seq<seq<string>>, g: Adjacency) {
    && (forall i :: 0 <= i < |batches| ==> batches[i] != [] && Distinct(batches[i]))
    && (forall i, j, n :: 0 <= i < j < |batches| && n in batches[i] ==> n !in batches[j])
    && (forall n :: n in g <==> InBatches(batches, n))
    && Layered(batches, g)
  }

  ghost predicate InBatches(batches: seq<seq<string>>, n: string) {
    exists i :: 0 <= i < |batches| && n in batches[i]
  }

  ghost predicate Layered(batches: seq<seq<string>>, g: Adjacency) {
    && (forall i, n, p :: 0 <= i < |batches| && n in batches[i] && p in Next(g, n) ==> InBatches(batches[..i], p))
    && (forall i, n :: 0 < i < |batches| && n in batches[i] ==> AfterPrevious(batches, g, i, n))
  }

  ghost predicate AfterPrevious(batches: seq<seq<string>>, g: Adjacency, i: int, n: string)
    requires 0 < i < |batches|
  {
    exists p :: p in Next(g, n) && p in batches[i - 1]
  }

  /** A chain of direct edges, from a node back towards its predecessors. */
  ghost predicate IsChain(g: Adjacency, p: seq<string>) {
    p != [] && forall i :: 0 <= i < |p| - 1 ==> p[i + 1] in Next(g, p[i])
  }

  lemma {:induction false} ChainOfLevel(batches: seq<seq<string>>, g: Adjacency, i: nat, n: string) returns (p: seq<string>)
    requires Layered(batches, g) && i < |batches| && n in batches[i]
    ensures IsChain(g, p) && p[0] == n && |p| == i + 1
    decreases i
  {
    if i == 0 {
      p := [n];
    } else {
      assert AfterPrevious(batches, g, i, n);
      var q :| q in Next(g, n) && q in batches[i - 1];
      var rest := ChainOfLevel(batches, g, i - 1, q);
      p := [n] + rest;
    }
  }

  /** Any assignment of nodes to rounds that puts predecessors strictly earlier. */
  ghost predicate IsSchedule(rounds: seq<seq<string>>, g: Adjacency) {
    forall i, n, p :: 0 <= i < |rounds| && n in rounds[i] && p in Next(g, n) ==> InBatches(rounds[..i], p)
  }

  lemma {:induction false} ChainFitsRounds(rounds: seq<seq<string>>, g: Adjacency, p: seq<string>, i: nat)
    requires IsSchedule(rounds, g) && IsChain(g, p)
    requires i < |rounds| && p[0] in rounds[i]
    ensures |p| <= i + 1
    decreases |p|
  {
    if |p| > 1 {
      assert p[1] in Next(g, p[0]);
      var j :| 0 <= j < i && p[1] in rounds[..i][j];
      ChainFitsRounds(rounds, g, p[1..], j);
    }
  }

  /** A node's batch number is the length of the longest chain of edges that ends at it. */
  lemma BatchIsLongestChain(batches: seq<seq<string>>, g: Adjacency, i: nat, n: string)
    requires Generations(batches, g) && i < |batches| && n in batches[i]
    ensures exists p :: IsChain(g, p) && p[0] == n && |p| - 1 == i
    ensures forall p :: IsChain(g, p) && p[0] == n ==> |p| - 1 <= i
  {
    var p := ChainOfLevel(batches, g, i, n);
    forall p | IsChain(g, p) && p[0] == n
      ensures |p| - 1 <= i
    {
      ChainFitsRounds(batches, g, p, i);
    }
  }

  /** No schedule of the same nodes has fewer rounds. */
  lemma NoShorterSchedule(batches: seq<seq<string>>, rounds: seq<seq<string>>, g: Adjacency)
    requires Generations(batches, g)
    requires IsSchedule(rounds, g) && forall n :: n in g ==> InBatches(rounds, n)
    ensures |batches| <= |rounds|
  {
    if batches != [] {
      var last := |batches| - 1;
      var n := batches[last][0];
      assert InBatches(batches, n);
      var p := ChainOfLevel(batches, g, last, n);
      var i :| 0 <= i < |rounds| && n in rounds[i];
      ChainFitsRounds(rounds, g, p, i);
    }
  }

  function IndexOf(order: seq<string>, n: string): nat {
    if order == [] then 0 else if order[0] == n then 0 else 1 + IndexOf(order[1..], n)
  }

  predicate EarlierIn(order: seq<string>, a: string, b: string) { IndexOf(order, a) <= IndexOf(order, b) }

  /** Among distinct names the place of a name is where it stands. */
  lemma {:induction false} PlaceOf(order: seq<string>, i: nat)
    requires Distinct(order) && i < |order|
    ensures IndexOf(order, order[i]) == i
  {
    if i > 0 {
      assert order[0] != order[i] && order[1..][i - 1] == order[i];
      PlaceOf(order[1..], i - 1);
    }
  }

  /** `sorted(ready, key=order_index)`. */
  method InOrder(nodes: seq<string>, order: seq<string>) returns (r: seq<string>)
    requires Distinct(nodes)
    ensures Distinct(r) && |r| == |nodes| && forall n :: n in r <==> n in nodes
    ensures forall i, j :: 0 <= i < j < |r| ==> EarlierIn(order, r[i], r[j])
  {
    var le := (a, b) => EarlierIn(order, a, b);
    r := Sort(nodes, le);
    SortSorts(nodes, le);
    DistinctTransfers(nodes, r);
    forall n ensures n in r <==> n in nodes { assert n in multiset(r) <==> n in multiset(nodes); }
  }

  /** Batches so far: their nodes are done, and whatever is left waits for the newest of them. */
  ghost predicate Batched(batches: seq<seq<string>>, g: Adjacency, finished: set<string>) {
    && (forall i :: 0 <= i < |batches| ==> batches[i] != [] && Distinct(batches[i]))
    && (forall i, j, n :: 0 <= i < j < |batches| && n in batches[i] ==> n !in batches[j])
    && (forall n :: n in finished <==> InBatches(batches, n))
    && Layered(batches, g)
    && (batches != [] ==> forall n :: n in g && n !in finished ==> Waits(batches[|batches| - 1], g, finished, n))
  }

  ghost predicate Waits(newest: seq<string>, g: Adjacency, finished: set<string>, n: string) {
    exists p :: p in Next(g, n) && (p in newest || p !in finished)
  }

  lemma InBatchesSnoc(batches: seq<seq<string>>, batch: seq<string>, n: string)
    ensures InBatches(batches + [batch], n) <==> InBatches(batches, n) || n in batch
  {
    if InBatches(batches, n) {
      var i :| 0 <= i < |batches| && n in batches[i];
      assert (batches + [batch])[i] == batches[i];
    }
    assert (batches + [batch])[|batches|] == batch;
  }

  lemma BatchedStep(batches: seq<seq<string>>, g: Adjacency, finished: set<string>, ready: seq<string>, after: set<string>)
    requires Batched(batches, g, finished) && ClosedUnderPredecessors(g)
    requires ready != [] && Distinct(ready) && forall n :: n in ready <==> n in ReadySet(g, finished, finished)
    requires forall n :: n in after <==> n in finished || n in ready
    ensures Batched(batches + [ready], g, after)
  {
    hide Distinct;
    var more := batches + [ready];
    forall n ensures InBatches(more, n) <==> n in after { InBatchesSnoc(batches, ready, n); }
    LayeredStep(batches, g, finished, ready);
    forall i, j, n | 0 <= i < j < |more| && n in more[i]
      ensures n !in more[j]
    {
      if j == |batches| { assert InBatches(batches, n); }
    }
    forall n | n in g && n !in after
      ensures Waits(ready, g, after, n)
    {
      var p :| p in g[n] && p !in finished;
      assert p in Next(g, n) && (p in ready || p !in after);
    }
  }

  lemma LayeredStep(batches: seq<seq<string>>, g: Adjacency, finished: set<string>, ready: seq<string>)
    requires Batched(batches, g, finished)
    requires forall n :: n in ready <==> n in ReadySet(g, finished, finished)
    ensures Layered(batches + [ready], g)
  {
    var more := batches + [ready];
    forall i, n, p | 0 <= i < |more| && n in more[i] && p in Next(g, n)
      ensures InBatches(more[..i], p)
    {
      assert more[..i] == batches[..i];
      if i == |batches| {
        assert batches[..i] == batches;
      }
    }
    forall i, n | 0 < i < |more| && n in more[i]
      ensures AfterPrevious(more, g, i, n)
    {
      if i < |batches| {
        assert AfterPrevious(batches, g, i, n);
        var p :| p in Next(g, n) && p in batches[i - 1];
        assert p in more[i - 1];
      } else {
        assert Waits(batches[|batches| - 1], g, finished, n);
        var p :| p in Next(g, n) && (p in batches[|batches| - 1] || p !in finished);
        assert p in more[i - 1];
      }
    }
  }

  /** Batches in the order of the global topological sort. */
  ghost predicate Ordered(batches: seq<seq<string>>, order: seq<string>) {
    forall b, i, j :: 0 <= b < |batches| && 0 <= i < j < |batches[b]| ==> EarlierIn(order, batches[b][i], batches[b][j])
  }

  lemma SubgraphAcyclic(preds: Adjacency, order: seq<string>, names: set<string>)
    requires IsTopological(preds, order)
    ensures Acyclic(Restrict(preds, names))
  {
    var g := Restrict(preds, names);
    TopologicalIsAcyclic(preds, order);
    forall n
      ensures !Reaches(g, n, n)
    {
      if p :| Joins(g, p, n, n) {
        assert forall i :: 0 <= i < |p| - 1 ==> p[i + 1] in Next(g, p[i]) && p[i + 1] in Next(preds, p[i]);
        assert Joins(preds, p, n, n);
        assert Reaches(preds, n, n);
      }
    }
  }

  /** `parallel_batches`, driving the sorter generation by generation. */
  method ParallelBatches(preds: Adjacency, order: seq<string>, names: seq<string>) returns (batches: seq<seq<string>>)
    requires IsTopological(preds, order) && forall n :: n in names ==> n in preds
    ensures Generations(batches, Restrict(preds, set n | n in names))
    ensures Ordered(batches, order)
  {
    hide Distinct, IsTopological, Batched, Acyclic;
    var g := Restrict(preds, set n | n in names);
    assert ClosedUnderPredecessors(g);
    SubgraphAcyclic(preds, order, set n | n in names);
    var sorter := new TopologicalSorter(g);
    batches := [];
    assert Batched(batches, g, {}) by { NothingBatched(g); }
    while sorter.IsActive()
      invariant sorter.Valid() && sorter.graph == g && fresh(sorter) && sorter.finished == sorter.handed
      invariant Batched(batches, g, sorter.finished) && Ordered(batches, order)
      decreases g.Keys - sorter.handed
    {
      ghost var before := sorter.finished;
      var ready := sorter.GetReady();
      ready := InOrder(ready, order);
      sorter.DoneAll(ready);
      assert sorter.finished == sorter.handed;
      BatchedStep(batches, g, before, ready, sorter.finished);
      batches := batches + [ready];
    }
    SomethingIsReady(g, sorter.finished);
    AllBatched(batches, g);
  }

  lemma NothingBatched(g: Adjacency)
    ensures Batched([], g, {})
  {
  }

  lemma AllBatched(batches: seq<seq<string>>, g: Adjacency)
    requires Batched(batches, g, g.Keys)
    ensures Generations(batches, g)
  {
  }

  // ----- The project graph -----

  datatype NodeKind = Source | Model | SearchIndex
  datatype Node = Node(kind: NodeKind, tags: set<string>)

  datatype SourceConfig = SourceConfig(name: string, tags: set<string>)

  /** `references`: the parsed source, dependencies, relationship-test targets and golden sets. */
  datatype ModelConfig = ModelConfig(name: string, tags: set<string>, search: bool, references: set<string>)

  datatype DagError = DuplicateNode(name: string) | UnknownReference(model: string, name: string) | CyclicDependency

  /** One declared node, in the order the constructor meets them. */
  datatype Declared = Declared(name: string, node: Node, references: set<string>)

  function Declarations(sources: seq<SourceConfig>, models: seq<ModelConfig>): seq<Declared> {
    DeclaredSources(sources) + DeclaredModels(models)
  }

  function DeclaredSources(sources: seq<SourceConfig>): seq<Declared> {
    seq(|sources|, i requires 0 <= i < |sources| => Declared(sources[i].name, Node(Source, sources[i].tags), {}))
  }

  function DeclaredModels(models: seq<ModelConfig>): seq<Declared> {
    seq(|models|, i requires 0 <= i < |models| =>
      Declared(models[i].name, Node(if models[i].search then SearchIndex else Model, models[i].tags), models[i].references))
  }

  function Names(ds: seq<Declared>): seq<string> { seq(|ds|, i requires 0 <= i < |ds| => ds[i].name) }

  function NodeMap(ds: seq<Declared>): map<string, Node> {
    if ds == [] then map[] else NodeMap(ds[..|ds| - 1])[ds[|ds| - 1].name := ds[|ds| - 1].node]
  }

  function ReferenceMap(ds: seq<Declared>): Adjacency {
    if ds == [] then map[] else ReferenceMap(ds[..|ds| - 1])[ds[|ds| - 1].name := ds[|ds| - 1].references]
  }

  lemma {:induction false} MapKeys(ds: seq<Declared>)
    ensures forall n :: n in NodeMap(ds) <==> n in Names(ds)
    ensures NodeMap(ds).Keys == ReferenceMap(ds).Keys
  {
    if ds != [] {
      MapKeys(ds[..|ds| - 1]);
      assert Names(ds) == Names(ds[..|ds| - 1]) + [ds[|ds| - 1].name];
    }
  }

  lemma DeclareStep(so: seq<Declared>, d: Declared)
    ensures NodeMap(so + [d]) == NodeMap(so)[d.name := d.node]
    ensures ReferenceMap(so + [d]) == ReferenceMap(so)[d.name := d.references]
    ensures Names(so + [d]) == Names(so) + [d.name]
    ensures Distinct(Names(so + [d])) <==> Distinct(Names(so)) && d.name !in NodeMap(so)
  {
    assert (so + [d])[..|so|] == so;
    DistinctSnoc(Names(so), d.name);
    MapKeys(so);
    assert Names(so + [d]) == Names(so) + [d.name];
  }

  lemma NothingDeclared()
    ensures NodeMap([]) == map[] && ReferenceMap([]) == map[] && Distinct(Names([]))
  {
  }

  lemma NamesPrefix(ds: seq<Declared>, es: seq<Declared>)
    requires ds <= es
    ensures Names(ds) <= Names(es)
  {
  }

  /** Under distinct names, every declaration is found under its name. */
  lemma {:induction false} MapsHold(ds: seq<Declared>, d: Declared)
    requires Distinct(Names(ds)) && d in ds
    ensures d.name in NodeMap(ds) && NodeMap(ds)[d.name] == d.node
    ensures d.name in ReferenceMap(ds) && ReferenceMap(ds)[d.name] == d.references
  {
    var init, last := ds[..|ds| - 1], ds[|ds| - 1];
    assert ds == init + [last] && Names(ds) == Names(init) + [last.name];
    DistinctSnoc(Names(init), last.name);
    if d in init {
      MapsHold(init, d);
      MapKeys(init);
    }
  }

  /** Edges of the given nodes, turned round. */
  function Reversed(preds: Adjacency, listed: set<string>): Adjacency {
    map n | n in preds :: Pointing(preds, listed, n)
  }

  function Pointing(preds: Adjacency, listed: set<string>, n: string): set<string> {
    set m | m in listed && m in preds && n in preds[m]
  }

  lemma NothingReversed(preds: Adjacency, succs: Adjacency)
    requires succs.Keys == preds.Keys && forall n :: n in succs ==> succs[n] == {}
    ensures succs == Reversed(preds, {})
  {
    forall n | n in succs ensures succs[n] == Pointing(preds, {}, n) {}
  }

  /** `successors[pred].add(name)` for every `pred` of a node. */
  function AddSuccessor(succs: Adjacency, preds: set<string>, name: string): Adjacency {
    map n | n in succs :: if n in preds then succs[n] + {name} else succs[n]
  }

  lemma ReversedStep(preds: Adjacency, listed: set<string>, name: string)
    requires name in preds
    ensures AddSuccessor(Reversed(preds, listed), preds[name], name) == Reversed(preds, listed + {name})
  {
    var succs := AddSuccessor(Reversed(preds, listed), preds[name], name);
    forall n | n in preds ensures succs[n] == Pointing(preds, listed + {name}, n) {}
  }

  lemma ReversedMirrors(preds: Adjacency)
    requires ClosedUnderPredecessors(preds)
    ensures Mirror(preds, Reversed(preds, preds.Keys))
  {
  }

  class ProjectDag {
    var nodes: map<string, Node>
    var predecessors: Adjacency
    var successors: Adjacency
    var sorted: seq<string>
    /** The exception the constructor left with. */
    var error: Option<DagError>

    ghost predicate Valid()
      reads this
    {
      && error == None && nodes.Keys == predecessors.Keys
      && ClosedUnderPredecessors(predecessors)
      && Mirror(predecessors, successors)
      && IsTopological(predecessors, sorted)
    }

    ghost predicate Holds(ds: seq<Declared>)
      reads this
    {
      nodes == NodeMap(ds) && predecessors == ReferenceMap(ds)
    }

    constructor (sources: seq<SourceConfig>, models: seq<ModelConfig>)
      ensures error == None ==> Valid() && Distinct(Names(Declarations(sources, models)))
      ensures error.Some? && error.value.DuplicateNode? <==> !Distinct(Names(Declarations(sources, models)))
      ensures error.Some? && error.value.UnknownReference? ==>
        error.value.name in Next(predecessors, error.value.model) && error.value.name !in nodes
      ensures error.Some? && error.value.CyclicDependency? ==> !Acyclic(predecessors)
      ensures error.None? || !error.value.DuplicateNode? ==> Holds(Declarations(sources, models))
    {
      nodes, predecessors, successors, sorted, error := map[], map[], map[], [], None;
      new;
      hide NodeMap, ReferenceMap, Names, Distinct, Reversed, Mirror, IsTopological, Acyclic;
      ghost var all := Declarations(sources, models);
      NothingDeclared();
      AddNodes(DeclaredSources(sources), []);
      assert [] + DeclaredSources(sources) == DeclaredSources(sources);
      if error.Some? {
        NamesPrefix(DeclaredSources(sources), all);
        PrefixRepeats(Names(DeclaredSources(sources)), Names(all));
        return;
      }
      AddNodes(DeclaredModels(models), DeclaredSources(sources));
      if error.Some? { return; }
      MapKeys(all);
      Connect();
      if error.Some? { return; }
      ReversedMirrors(predecessors);
      var order := StaticOrder(predecessors);
      if order.None? {
        error := Some(CyclicDependency);
      } else {
        sorted := order.value;
      }
    }

    /** The loop over the declarations: `_add_node`, then the parsed references. */
    method AddNodes(more: seq<Declared>, ghost before: seq<Declared>)
      requires Holds(before) && Distinct(Names(before)) && error == None
      requires successors.Keys == predecessors.Keys && forall n :: n in successors ==> successors[n] == {}
      modifies this
      ensures error == None ==> Holds(before + more) && Distinct(Names(before + more))
      ensures error == None ==> successors.Keys == predecessors.Keys && forall n :: n in successors ==> successors[n] == {}
      ensures error.Some? ==> error.value.DuplicateNode? && !Distinct(Names(before + more))
    {
      hide NodeMap, ReferenceMap, Names, Distinct;
      assert before + more[..0] == before;
      for k := 0 to |more|
        invariant error == None && Holds(before + more[..k]) && Distinct(Names(before + more[..k]))
        invariant successors.Keys == predecessors.Keys && forall n :: n in successors ==> successors[n] == {}
      {
        var d := more[k];
        ghost var so := before + more[..k];
        assert before + more[..k + 1] == so + [d];
        DeclareStep(so, d);
        if d.name in nodes {
          error := Some(DuplicateNode(d.name));
          assert so + [d] <= before + more;
          NamesPrefix(so + [d], before + more);
          PrefixRepeats(Names(so + [d]), Names(before + more));
          return;
        }
        nodes := nodes[d.name := d.node];
        predecessors := predecessors[d.name := d.references];
        successors := successors[d.name := {}];
      }
      assert more[..|more|] == more;
    }

    /** Check every reference and turn the edges round. */
    method Connect()
      requires nodes.Keys == predecessors.Keys && error == None
      requires successors.Keys == predecessors.Keys && forall n :: n in successors ==> successors[n] == {}
      modifies this`successors, this`error
      ensures error == None ==> successors == Reversed(predecessors, predecessors.Keys)
      ensures error == None ==> ClosedUnderPredecessors(predecessors)
      ensures error.Some? ==>
                && error.value.UnknownReference?
                && error.value.name in Next(predecessors, error.value.model) && error.value.name !in nodes
    {
      hide Reversed, Pointing, AddSuccessor;
      var todo := predecessors.Keys;
      ghost var checked: set<string> := {};
      NothingReversed(predecessors, successors);
      while todo != {}
        invariant error == None && todo + checked == predecessors.Keys && todo !! checked
        invariant forall n :: n in checked ==> predecessors[n] <= nodes.Keys
        invariant successors == Reversed(predecessors, checked)
        decreases todo
      {
        var name :| name in todo;
        var unknown := predecessors[name] - nodes.Keys;
        if unknown != {} {
          var pred :| pred in unknown;
          error := Some(UnknownReference(name, pred));
          return;
        }
        ReversedStep(predecessors, checked, name);
        successors := AddSuccessor(successors, predecessors[name], name);
        todo, checked := todo - {name}, checked + {name};
      }
    }

    method Descendants(name: string) returns (r: set<string>)
      ensures forall n :: n in r <==> Reaches(successors, name, n)
    {
      r := Bfs(name, successors);
    }

    /** Source ancestors of the models, in graph order; `None` for an unknown name. */
    method RequiredSources(names: seq<string>) returns (r: Option<seq<string>>)
      requires Valid()
      ensures r.Some? <==> forall n :: n in names ==> n in nodes
      ensures r.Some? ==> r.value == Filtered(sorted, set s | s in r.value)
      ensures r.Some? ==> forall s :: s in r.value <==>
        s in nodes && nodes[s].kind == Source && exists n :: n in names && Reaches(predecessors, n, s)
    {
      var required: set<string> := {};
      for k := 0 to |names|
        invariant forall n :: n in names[..k] ==> n in nodes
        invariant forall s :: s in required <==>
          s in nodes && nodes[s].kind == Source && exists n :: n in names[..k] && Reaches(predecessors, n, s)
      {
        assert names[..k + 1] == names[..k] + [names[k]];
        if names[k] !in nodes { return None; }
        var ancestors := Bfs(names[k], predecessors);
        required := required + set a | a in ancestors && a in nodes && nodes[a].kind == Source;
      }
      assert names[..|names|] == names;
      FilteredMembers(sorted, required);
      r := Some(Filtered(sorted, required));
      assert (set s | s in r.value) == required;
    }

    predicate Runs(n: string)
      reads this
    {
      n in nodes && nodes[n].kind != Source
    }

    /** What one selector token stands for; `None` for a token the selector language refuses. */
    ghost predicate Expands(token: string, modified: Option<set<string>>, n: string)
      reads this
    {
      exists seed :: Seeds(token, modified, seed) && (n == seed || Grows(token, seed, n))
    }

    ghost predicate Grows(token: string, seed: string, n: string)
      reads this
    {
      (Up(token) && Reaches(predecessors, seed, n)) || (Down(token) && Reaches(successors, seed, n))
    }

    predicate Seeds(token: string, modified: Option<set<string>>, n: string)
      reads this
    {
      n in nodes &&
      match ParseSelector(Body(token))
      case StateModified => modified.Some? && n in modified.value
      case Tagged(tag) => tag in nodes[n].tags
      case Named(name) => n == name
      case Refused => false
    }

    predicate Accepts(token: string, modified: Option<set<string>>)
      reads this
    {
      match ParseSelector(Body(token))
      case StateModified => modified.Some?
      case Tagged(tag) => true
      case Named(name) => name in nodes
      case Refused => false
    }

    method ExpandToken(token: string, modified: Option<set<string>>) returns (r: Option<set<string>>)
      requires Valid()
      ensures r.Some? <==> Accepts(token, modified)
      ensures r.Some? ==> forall n :: n in r.value <==> Expands(token, modified, n)
    {
      if !Accepts(token, modified) { return None; }
      var seeds := set n | n in nodes && Seeds(token, modified, n);
      var listed := Listing(seeds);
      var result := seeds;
      for k := 0 to |listed|
        invariant forall n :: n in result <==> n in seeds || GrownFrom(token, listed[..k], n)
      {
        GrownSnoc(token, listed, k);
        if Up(token) {
          var ancestors := Bfs(listed[k], predecessors);
          result := result + ancestors;
        }
        if Down(token) {
          var descendants := Bfs(listed[k], successors);
          result := result + descendants;
        }
      }
      assert listed[..|listed|] == listed;
      r := Some(result);
      forall n ensures n in result <==> Expands(token, modified, n) {
        if n in seeds { assert Seeds(token, modified, n); }
      }
    }

    ghost predicate GrownFrom(token: string, seeds: seq<string>, n: string)
      reads this
    {
      exists seed :: seed in seeds && Grows(token, seed, n)
    }

    lemma GrownSnoc(token: string, seeds: seq<string>, k: nat)
      requires k < |seeds|
      ensures forall n :: GrownFrom(token, seeds[..k + 1], n) <==>
        GrownFrom(token, seeds[..k], n) || Grows(token, seeds[k], n)
    {
      hide Grows;
      assert seeds[..k + 1] == seeds[..k] + [seeds[k]];
      assert forall seed :: seed in seeds[..k + 1] <==> seed in seeds[..k] || seed == seeds[k];
    }

    /** `_apply`: the union over the tokens; the first refused token ends it. */
    method Apply(tokens: seq<string>, modified: Option<set<string>>) returns (r: Option<set<string>>)
      requires Valid()
      ensures r.Some? <==> forall t :: t in tokens ==> Accepts(t, modified)
      ensures r.Some? ==> forall n :: n in r.value <==> exists t :: t in tokens && Expands(t, modified, n)
    {
      hide Expands;
      var out: set<string> := {};
      for k := 0 to |tokens|
        invariant forall t :: t in tokens[..k] ==> Accepts(t, modified)
        invariant forall n :: n in out <==> exists t :: t in tokens[..k] && Expands(t, modified, n)
      {
        assert tokens[..k + 1] == tokens[..k] + [tokens[k]];
        assert forall t :: t in tokens[..k + 1] <==> t in tokens[..k] || t == tokens[k];
        var expanded := ExpandToken(tokens[k], modified);
        if expanded.None? { return None; }
        out := out + expanded.value;
      }
      assert tokens[..|tokens|] == tokens;
      return Some(out);
    }

    ghost predicate Chosen(select: Option<seq<string>>, exclude: Option<seq<string>>, modified: Option<set<string>>, n: string)
      reads this
    {
      && Runs(n)
      && (select.Some? ==> exists t :: t in select.value && Expands(t, modified, n))
      && (exclude.Some? ==> !exists t :: t in exclude.value && Expands(t, modified, n))
    }

    /** `select_models`: the selected models and search indexes, in topological order. */
    method SelectModels(select: Option<seq<string>>, exclude: Option<seq<string>>, modified: Option<set<string>>)
      returns (r: Option<seq<string>>)
      requires Valid()
      ensures r.Some? <==> forall t :: (select.Some? && t in select.value) || (exclude.Some? && t in exclude.value) ==>
        Accepts(t, modified)
      ensures r.Some? ==> forall n :: n in r.value <==> Chosen(select, exclude, modified, n)
      ensures r.Some? ==> r.value == Filtered(sorted, set n | n in r.value)
    {
      var selected := nodes.Keys;
      if select.Some? {
        var applied := Apply(select.value, modified);
        if applied.None? { return None; }
        selected := applied.value;
      }
      if exclude.Some? {
        var applied := Apply(exclude.value, modified);
        if applied.None? { return None; }
        selected := selected - applied.value;
      }
      var running := set n | n in selected && Runs(n);
      FilteredMembers(sorted, running);
      r := Some(Filtered(sorted, running));
      assert (set n | n in r.value) == running;
    }
  }

  lemma PrefixRepeats(prefix: seq<string>, names: seq<string>)
    requires prefix <= names && !Distinct(prefix)
    ensures !Distinct(names)
  {
    var i, j :| 0 <= i < j < |prefix| && prefix[i] == prefix[j];
    assert names[i] == prefix[i] && names[j] == prefix[j];
  }

  function Filtered(order: seq<string>, keep: set<string>): seq<string> {
    if order == [] then []
    else Filtered(order[..|order| - 1], keep) + if order[|order| - 1] in keep then [order[|order| - 1]] else []
  }

  /** Filtering keeps the order. */
  lemma {:induction false} FilteredInOrder(order: seq<string>, keep: set<string>, i: nat, j: nat)
    requires Distinct(order) && i < j < |Filtered(order, keep)|
    ensures var kept := Filtered(order, keep);
      kept[i] in order && kept[j] in order && IndexOf(order, kept[i]) < IndexOf(order, kept[j])
  {
    var init, last, kept := order[..|order| - 1], order[|order| - 1], Filtered(order, keep);
    assert order == init + [last];
    DistinctSnoc(init, last);
    FilteredMembers(init, keep);
    assert kept[i] in init;
    var p :| 0 <= p < |init| && init[p] == kept[i];
    PlaceOf(order, p);
    if j < |Filtered(init, keep)| {
      FilteredInOrder(init, keep, i, j);
      var q :| 0 <= q < |init| && init[q] == kept[j];
      PlaceOf(order, q);
      PlaceOf(init, p);
      PlaceOf(init, q);
    } else {
      PlaceOf(order, |init|);
    }
  }

  lemma {:induction false} FilteredMembers(order: seq<string>, keep: set<string>)
    ensures forall n :: n in Filtered(order, keep) <==> n in order && n in keep
    ensures Distinct(order) ==> Distinct(Filtered(order, keep))
  {
    if order != [] {
      var init, last := order[..|order| - 1], order[|order| - 1];
      assert order == init + [last];
      FilteredMembers(init, keep);
      DistinctSnoc(init, last);
      DistinctSnoc(Filtered(init, keep), last);
    }
  }

  // ----- The selector language -----

  datatype Selector = StateModified | Tagged(tag: string) | Named(name: string) | Refused

  predicate Up(token: string) { token != "" && token[0] == '+' }
  predicate Down(token: string) { token != "" && token[|token| - 1] == '+' }

  /** `token.strip("+")`. */
  function Body(token: string): string {
    if token == "" then ""
    else if token[0] == '+' then Body(token[1..])
    else if token[|token| - 1] == '+' then Body(token[..|token| - 1])
    else token
  }

  function ParseSelector(body: string): Selector {
    if body == "" then Refused
    else if body == "state:modified" then StateModified
    else if "state:" <= body then Refused
    else if "tag:" <= body then (if body == "tag:" then Refused else Tagged(body[4..]))
    else Named(body)
  }

  // ----- What the selectors mean -----

  /** A name that the selector language does not read as anything else. */
  predicate PlainName(name: string) {
    name != "" && name[0] != '+' && name[|name| - 1] != '+' && !("state:" <= name) && !("tag:" <= name)
  }

  lemma BodyOf(name: string)
    requires name != "" && name[0] != '+' && name[|name| - 1] != '+'
    ensures Body(name) == name && Body("+" + name) == name && Body(name + "+") == name && Body("+" + name + "+") == name
    ensures !Up(name) && !Down(name) && Up("+" + name) && !Down("+" + name)
    ensures !Up(name + "+") && Down(name + "+") && Up("+" + name + "+") && Down("+" + name + "+")
  {
    assert ("+" + name)[1..] == name;
    assert (name + "+")[..|name|] == name;
    assert ("+" + name + "+")[1..] == name + "+";
    assert ("+" + name)[|name|] == name[|name| - 1];
    assert (name + "+")[0] == name[0] && (name + "+")[|name|] == '+';
  }

  /** `name`, `+name` with its ancestors, `name+` with its descendants, `+name+` with both. */
  lemma NameSelects(dag: ProjectDag, name: string, modified: Option<set<string>>, n: string)
    requires PlainName(name)
    ensures dag.Expands(name, modified, n) <==> name in dag.nodes && n == name
    ensures dag.Expands("+" + name, modified, n) <==> name in dag.nodes && (n == name || Reaches(dag.predecessors, name, n))
    ensures dag.Expands(name + "+", modified, n) <==> name in dag.nodes && (n == name || Reaches(dag.successors, name, n))
    ensures dag.Expands("+" + name + "+", modified, n) <==>
      name in dag.nodes && (n == name || Reaches(dag.predecessors, name, n) || Reaches(dag.successors, name, n))
    ensures dag.Accepts(name, modified) <==> name in dag.nodes
  {
    BodyOf(name);
    hide Reaches, Body, Up, Down;
    if name in dag.nodes {
      assert dag.Seeds(name, modified, name) && dag.Seeds("+" + name, modified, name);
      assert dag.Seeds(name + "+", modified, name) && dag.Seeds("+" + name + "+", modified, name);
    }
  }

  /** Sources are never chosen; without selectors everything else is, and excluding has the last word. */
  lemma ChosenIs(dag: ProjectDag, name: string, modified: Option<set<string>>, n: string)
    requires PlainName(name)
    ensures dag.Chosen(None, None, modified, n) <==>
      n in dag.nodes && (dag.nodes[n].kind == Model || dag.nodes[n].kind == SearchIndex)
    ensures dag.Chosen(Some([name]), None, modified, n) <==> n == name && dag.Chosen(None, None, modified, n)
    ensures dag.Chosen(None, Some([name]), modified, n) <==> n != name && dag.Chosen(None, None, modified, n)
    ensures !dag.Chosen(Some([name]), Some([name]), modified, n)
  {
    NameSelects(dag, name, modified, n);
    assert forall t :: t in [name] <==> t == name;
    var token := [name][0];
    assert token in [name] && token == name;
  }

  /** `tag:x`: the nodes with that tag. */
  lemma TagSelects(dag: ProjectDag, tag: string, modified: Option<set<string>>, n: string)
    requires tag != "" && tag[|tag| - 1] != '+'
    ensures dag.Accepts("tag:" + tag, modified)
    ensures dag.Expands("tag:" + tag, modified, n) <==> n in dag.nodes && tag in dag.nodes[n].tags
  {
    var token := "tag:" + tag;
    assert token[|token| - 1] == tag[|tag| - 1];
    BodyOf(token);
    ParsesTag(tag);
    hide Reaches, Body, Up, Down, ParseSelector;
    if n in dag.nodes && tag in dag.nodes[n].tags {
      assert dag.Seeds(token, modified, n);
    }
  }

  lemma ParsesTag(tag: string)
    requires tag != ""
    ensures ParseSelector("tag:" + tag) == Tagged(tag)
  {
    var token := "tag:" + tag;
    assert token[0] == 't' && token[4..] == tag;
  }

  /** `state:modified`: the modified nodes of the graph, known only with a previous manifest. */
  lemma ModifiedSelects(dag: ProjectDag, modified: Option<set<string>>, n: string)
    ensures dag.Accepts("state:modified", modified) <==> modified.Some?
    ensures dag.Expands("state:modified", modified, n) <==> n in dag.nodes && modified.Some? && n in modified.value
  {
    BodyOf("state:modified");
    hide Reaches, Body, Up, Down;
    if n in dag.nodes && modified.Some? && n in modified.value {
      assert dag.Seeds("state:modified", modified, n);
    }
  }

  /** An empty name or tag and any other state are refused. */
  lemma Refusals(dag: ProjectDag, state: string, modified: Option<set<string>>)
    requires state != "" && state[|state| - 1] != '+' && state != "modified"
    ensures !dag.Accepts("state:" + state, modified)
    ensures !dag.Accepts("", modified) && !dag.Accepts("+", modified) && !dag.Accepts("tag:", modified)
  {
    var token := "state:" + state;
    assert token[|token| - 1] == state[|state| - 1] && token[6..] == state && "state:modified"[6..] == "modified";
    BodyOf(token);
    BodyOf("tag:");
    NothingSelects(dag, modified);
    hide Body;
  }

  lemma NothingSelects(dag: ProjectDag, modified: Option<set<string>>)
    ensures !dag.Accepts("", modified) && !dag.Accepts("+", modified)
  {
    assert "+"[1..] == "";
    assert Body("+") == "";
  }
}
