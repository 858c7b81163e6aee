/**
 Dependency graphs and the recursive depth-first check that rejects cycles. The check accepts
 exactly the acyclic graphs, and a reported cycle is a real one.
 */
module DependencyGraph {
  import opened Outcomes
  import opened Ordering

  type Graph = map<string, seq<string>>

  datatype Node = Node(id: string, dependencies: seq<string>)

  datatype GraphError =
    | SelfDependency(id: string)
    | UnknownDependencies(id: string, unknown: set<string>)
    | CycleReaches(id: string)

  // ----- paths -----

  /** Every dependency is itself a node. */
  ghost predicate Closed(g: Graph) {
    forall n, d :: n in g && d in g[n] ==> d in g
  }

  ghost predicate IsPath(g: Graph, p: seq<string>) {
    p != [] && forall i :: 0 <= i < |p| - 1 ==> p[i] in g && p[i + 1] in g[p[i]]
  }

  /** `b` is reached from `a` by at least one dependency step. */
  ghost predicate Reaches(g: Graph, a: string, b: string) {
    exists p :: IsPath(g, p) && |p| >= 2 && p[0] == a && p[|p| - 1] == b
  }

  ghost predicate Acyclic(g: Graph) {
    forall n :: !Reaches(g, n, n)
  }

  lemma StepReaches(g: Graph, a: string, b: string)
    requires a in g && b in g[a]
    ensures Reaches(g, a, b)
  {
    var p := [a, b];
    assert IsPath(g, p) && p[|p| - 1] == b;
  }

  lemma SegmentReaches(g: Graph, p: seq<string>, i: nat, j: nat)
    requires IsPath(g, p) && i < j < |p|
    ensures Reaches(g, p[i], p[j])
  {
    var q := p[i..j + 1];
    assert IsPath(g, q) && q[0] == p[i] && q[|q| - 1] == p[j];
  }

  /** Each node's dependencies come earlier in `order`. */
  ghost predicate Topological(g: Graph, order: seq<string>) {
    forall i :: 0 <= i < |order| ==> order[i] in g && forall d :: d in g[order[i]] ==> d in order[..i]
  }

  lemma PathTail(g: Graph, p: seq<string>)
    requires IsPath(g, p) && |p| >= 2
    ensures IsPath(g, p[1..])
  {
    var q := p[1..];
    forall i | 0 <= i < |q| - 1 ensures q[i] in g && q[i + 1] in g[q[i]] {
      assert q[i] == p[i + 1] && q[i + 1] == p[i + 2];
    }
  }

  lemma {:induction false} PathDescends(g: Graph, order: seq<string>, p: seq<string>, i: nat)
    requires Topological(g, order) && IsPath(g, p)
    requires i < |order| && order[i] == p[0]
    ensures exists j :: 0 <= j <= i && (|p| >= 2 ==> j < i) && order[j] == p[|p| - 1]
    decreases |p|
  {
    if |p| >= 2 {
      assert p[1] in order[..i];
      var k :| 0 <= k < i && order[k] == p[1];
      PathTail(g, p);
      PathDescends(g, order, p[1..], k);
    }
  }

  /** A topological order of all nodes leaves no room for a cycle. */
  lemma TopologicalIsAcyclic(g: Graph, order: seq<string>)
    requires Topological(g, order) && Distinct(order) && Elements(order) == g.Keys
    ensures Acyclic(g)
  {
    forall n ensures !Reaches(g, n, n) {
      if p :| IsPath(g, p) && |p| >= 2 && p[0] == n && p[|p| - 1] == n {
        assert p[0] in g.Keys;
        assert n in Elements(order);
        var i :| 0 <= i < |order| && order[i] == n;
        PathDescends(g, order, p, i);
      }
    }
  }

  /** A node whose dependencies are all finished may be finished next. */
  lemma FinishNext(g: Graph, order: seq<string>, x: string)
    requires Topological(g, order) && Distinct(order)
    requires x in g && x !in order && forall d :: d in g[x] ==> d in order
    ensures Topological(g, order + [x]) && Distinct(order + [x])
    ensures Elements(order + [x]) == Elements(order) + {x}
  {
    var next := order + [x];
    forall i | 0 <= i < |next| ensures next[i] in g && forall d :: d in g[next[i]] ==> d in next[..i] {
      assert next[..i] == order[..i];
      if i == |order| { assert order[..i] == order; }
    }
  }

  // ----- the check -----

  class DepthFirstSearch {
    const graph: Graph
    var visited: set<string>
    var active: set<string>
    ghost var finished: seq<string>  // visited nodes in the order they were finished

    constructor (g: Graph)
      ensures graph == g && visited == {} && active == {} && finished == [] && Valid()
    {
      graph := g;
      visited, active, finished := {}, {}, [];
    }

    ghost predicate Valid()
      reads this
    {
      && visited == Elements(finished)
      && Distinct(finished)
      && Topological(graph, finished)
      && visited !! active
      && active <= graph.Keys
    }

    /** `trail` is the chain of calls in progress: each entry depends on the next. */
    method Visit(identifier: string, ghost trail: seq<string>) returns (r: Result<(), GraphError>)
      requires Valid() && Closed(graph) && identifier in graph
      requires active == Elements(trail) && IsPath(graph, trail + [identifier])
      modifies this
      ensures r.Ok? ==> Valid() && active == old(active) && identifier in visited && old(finished) <= finished
      ensures r.Err? ==> r.error.CycleReaches? && Reaches(graph, r.error.id, r.error.id)
      decreases graph.Keys - visited - active
    {
      if identifier in active {
        ghost var k :| 0 <= k < |trail| && trail[k] == identifier;
        assert (trail + [identifier])[k] == identifier;
        SegmentReaches(graph, trail + [identifier], k, |trail|);
        return Err(CycleReaches(identifier));
      }
      if identifier in visited {
        return Ok(());
      }
      active := active + {identifier};
      ghost var path := trail + [identifier];
      assert active == Elements(path);
      var dependencies := graph[identifier];
      for i := 0 to |dependencies|
        invariant Valid() && active == old(active) + {identifier}
        invariant old(finished) <= finished
        invariant forall j :: 0 <= j < i ==> dependencies[j] in visited
      {
        assert IsPath(graph, path + [dependencies[i]]) by { PathExtends(graph, path, dependencies[i]); }
        assert old(visited) <= visited;
        ghost var before := visited;
        assert forall x :: x in finished <==> x in visited;
        var step := Visit(dependencies[i], path);
        if step.Err? {
          return step;
        }
        assert forall x :: x in before ==> x in finished;
      }
      active := active - {identifier};
      visited := visited + {identifier};
      assert forall d :: d in graph[identifier] ==> d in finished;
      assert identifier !in Elements(finished);
      FinishNext(graph, finished, identifier);
      finished := finished + [identifier];
      assert active == old(active);
      return Ok(());
    }
  }

  lemma PathExtends(g: Graph, p: seq<string>, d: string)
    requires IsPath(g, p) && p[|p| - 1] in g && d in g[p[|p| - 1]]
    ensures IsPath(g, p + [d])
  {
  }

  function Ids(nodes: seq<Node>): set<string> {
    set i | 0 <= i < |nodes| :: nodes[i].id
  }

  /** The dictionary of dependencies; a repeated identifier keeps its last entry. */
  function GraphOf(nodes: seq<Node>): Graph {
    if nodes == [] then map[]
    else GraphOf(nodes[..|nodes| - 1])[nodes[|nodes| - 1].id := nodes[|nodes| - 1].dependencies]
  }

  function LocalDefect(node: Node, ids: set<string>): Option<GraphError> {
    if node.id in node.dependencies then Some(SelfDependency(node.id))
    else if Elements(node.dependencies) - ids != {} then Some(UnknownDependencies(node.id, Elements(node.dependencies) - ids))
    else None
  }

  function FirstLocalDefect(nodes: seq<Node>, ids: set<string>): Option<GraphError> {
    if nodes == [] then None
    else if LocalDefect(nodes[0], ids).Some? then LocalDefect(nodes[0], ids)
    else FirstLocalDefect(nodes[1..], ids)
  }

  lemma {:induction false} GraphOfKeys(nodes: seq<Node>)
    ensures GraphOf(nodes).Keys == Ids(nodes)
    ensures forall id :: id in GraphOf(nodes) ==> Node(id, GraphOf(nodes)[id]) in nodes
  {
    if nodes != [] {
      var n := |nodes| - 1;
      GraphOfKeys(nodes[..n]);
      assert nodes == nodes[..n] + [nodes[n]];
      assert Ids(nodes) == Ids(nodes[..n]) + {nodes[n].id};
      assert nodes[n] == Node(nodes[n].id, nodes[n].dependencies);
    }
  }

  lemma DifferenceEmpty<T>(a: set<T>, b: set<T>)
    ensures a - b == {} <==> a <= b
  {
    if !(a <= b) {
      var x :| x in a && x !in b;
      assert x in a - b;
    }
  }

  lemma {:induction false} FirstDefectAbsent(nodes: seq<Node>, ids: set<string>)
    ensures FirstLocalDefect(nodes, ids) == None <==> forall n :: n in nodes ==> n.id !in n.dependencies && Elements(n.dependencies) <= ids
  {
    if nodes != [] {
      FirstDefectAbsent(nodes[1..], ids);
      assert nodes == [nodes[0]] + nodes[1..];
      DifferenceEmpty(Elements(nodes[0].dependencies), ids);
    }
  }

  lemma KnownGraphIsClosed(nodes: seq<Node>)
    requires FirstLocalDefect(nodes, Ids(nodes)) == None
    ensures Closed(GraphOf(nodes))
  {
    GraphOfKeys(nodes);
    FirstDefectAbsent(nodes, Ids(nodes));
    forall n, d | n in GraphOf(nodes) && d in GraphOf(nodes)[n] ensures d in GraphOf(nodes) {
      assert Node(n, GraphOf(nodes)[n]) in nodes;
      assert d in Elements(GraphOf(nodes)[n]);
    }
  }

  /** Known, self-free dependencies over a graph without cycles. */
  ghost predicate Accepts(nodes: seq<Node>) {
    FirstLocalDefect(nodes, Ids(nodes)) == None && Acyclic(GraphOf(nodes))
  }

  /** The first loop: every node is checked on its own while the dictionary is filled. */
  method BuildGraph(nodes: seq<Node>) returns (r: Result<Graph, GraphError>)
    ensures r == if FirstLocalDefect(nodes, Ids(nodes)).Some? then Err(FirstLocalDefect(nodes, Ids(nodes)).value) else Ok(GraphOf(nodes))
  {
    var identifiers := set i | 0 <= i < |nodes| :: nodes[i].id;
    var graph: Graph := map[];
    for i := 0 to |nodes|
      invariant graph == GraphOf(nodes[..i])
      invariant FirstLocalDefect(nodes, identifiers) == FirstLocalDefect(nodes[i..], identifiers)
    {
      var defect := LocalDefect(nodes[i], identifiers);
      assert nodes[i..][1..] == nodes[i + 1..];
      if defect.Some? {
        return Err(defect.value);
      }
      assert nodes[..i + 1][..i] == nodes[..i];
      graph := graph[nodes[i].id := nodes[i].dependencies];
    }
    assert nodes[..|nodes|] == nodes;
    return Ok(graph);
  }

  /** The second loop: visits from every node, in input order. */
  method SearchAll(nodes: seq<Node>, graph: Graph) returns (r: Result<(), GraphError>)
    requires Closed(graph) && graph.Keys == Ids(nodes)
    ensures r.Ok? ==> Acyclic(graph)
    ensures r.Err? ==> r.error.CycleReaches? && Reaches(graph, r.error.id, r.error.id)
  {
    var search := new DepthFirstSearch(graph);
    for i := 0 to |nodes|
      invariant search.Valid() && search.active == {}
      invariant forall j :: 0 <= j < i ==> nodes[j].id in search.finished
    {
      assert nodes[i].id in Ids(nodes);
      var step := search.Visit(nodes[i].id, []);
      if step.Err? {
        return step;
      }
      assert nodes[i].id in Elements(search.finished);
    }
    assert Elements(search.finished) == graph.Keys;
    TopologicalIsAcyclic(graph, search.finished);
    return Ok(());
  }

  /** Accepts exactly the acyclic graphs; otherwise reports the first local defect, or a node on a real cycle. */
  method ValidateGraph(nodes: seq<Node>) returns (r: Result<(), GraphError>)
    ensures r.Ok? <==> Accepts(nodes)
    ensures FirstLocalDefect(nodes, Ids(nodes)).Some? ==> r == Err(FirstLocalDefect(nodes, Ids(nodes)).value)
    ensures FirstLocalDefect(nodes, Ids(nodes)).None? && r.Err? ==>
              r.error.CycleReaches? && Reaches(GraphOf(nodes), r.error.id, r.error.id)
  {
    var built := BuildGraph(nodes);
    if built.Err? {
      return Err(built.error);
    }
    GraphOfKeys(nodes);
    KnownGraphIsClosed(nodes);
    r := SearchAll(nodes, built.value);
  }

  // ----- what is reported first -----

  ghost predicate IsKnown(nodes: seq<Node>, d: string) {
    exists i :: 0 <= i < |nodes| && nodes[i].id == d
  }

  /** The node depends neither on itself nor on anything that is no node. */
  ghost predicate Clean(nodes: seq<Node>, node: Node) {
    node.id !in node.dependencies && forall d :: d in node.dependencies ==> IsKnown(nodes, d)
  }

  /** What `error` says is wrong with the node: a dependency on itself or, short of that, exactly these unknown ones. */
  ghost predicate IsFault(nodes: seq<Node>, node: Node, error: GraphError) {
    match error
    case SelfDependency(id) => id == node.id && node.id in node.dependencies
    case UnknownDependencies(id, unknown) =>
      && id == node.id && node.id !in node.dependencies && unknown != {}
      && forall d :: d in unknown <==> d in node.dependencies && !IsKnown(nodes, d)
    case CycleReaches(_) => false
  }

  ghost predicate FirstFault(nodes: seq<Node>, rest: seq<Node>, i: nat, error: GraphError) {
    i < |rest| && IsFault(nodes, rest[i], error) && forall j :: 0 <= j < i ==> Clean(nodes, rest[j])
  }

  ghost predicate HasFirstFault(nodes: seq<Node>, rest: seq<Node>, error: GraphError) {
    exists i: nat :: FirstFault(nodes, rest, i, error)
  }

  lemma FirstFaultSplits(nodes: seq<Node>, rest: seq<Node>, error: GraphError)
    requires rest != []
    ensures HasFirstFault(nodes, rest, error)
            <==> IsFault(nodes, rest[0], error) || (Clean(nodes, rest[0]) && HasFirstFault(nodes, rest[1..], error))
  {
    if i: nat :| FirstFault(nodes, rest, i, error) {
      if i > 0 { assert FirstFault(nodes, rest[1..], i - 1, error); }
    }
    if IsFault(nodes, rest[0], error) { assert FirstFault(nodes, rest, 0, error); }
    if Clean(nodes, rest[0]) && HasFirstFault(nodes, rest[1..], error) {
      var i: nat :| FirstFault(nodes, rest[1..], i, error);
      assert FirstFault(nodes, rest, i + 1, error);
    }
  }

  lemma LocalDefectExact(nodes: seq<Node>, node: Node, error: GraphError)
    ensures LocalDefect(node, Ids(nodes)) == Some(error) <==> IsFault(nodes, node, error)
    ensures LocalDefect(node, Ids(nodes)).None? <==> Clean(nodes, node)
  {
    forall d ensures IsKnown(nodes, d) <==> d in Ids(nodes) { }
    var unknown := Elements(node.dependencies) - Ids(nodes);
    forall d ensures d in unknown <==> d in node.dependencies && !IsKnown(nodes, d) { }
    DifferenceEmpty(Elements(node.dependencies), Ids(nodes));
    if error.UnknownDependencies? && IsFault(nodes, node, error) { assert error.unknown == unknown; }
  }

  lemma {:induction false} DefectFromFirst(nodes: seq<Node>, rest: seq<Node>, error: GraphError)
    ensures FirstLocalDefect(rest, Ids(nodes)) == Some(error) <==> HasFirstFault(nodes, rest, error)
  {
    if rest != [] {
      LocalDefectExact(nodes, rest[0], error);
      DefectFromFirst(nodes, rest[1..], error);
      FirstFaultSplits(nodes, rest, error);
    }
  }

  /** The first loop reports the first faulty node, and of an unknown dependency exactly the names that are no node. */
  lemma FirstDefectExact(nodes: seq<Node>, error: GraphError)
    ensures FirstLocalDefect(nodes, Ids(nodes)) == Some(error) <==> HasFirstFault(nodes, nodes, error)
  {
    DefectFromFirst(nodes, nodes, error);
  }

  // ----- what acceptance means -----

  ghost predicate DistinctIds(nodes: seq<Node>) {
    forall i, j :: 0 <= i < j < |nodes| ==> nodes[i].id != nodes[j].id
  }

  lemma {:induction false} GraphOfDistinct(nodes: seq<Node>)
    requires DistinctIds(nodes)
    ensures forall i :: 0 <= i < |nodes| ==> nodes[i].id in GraphOf(nodes) && GraphOf(nodes)[nodes[i].id] == nodes[i].dependencies
  {
    if nodes != [] {
      var n := |nodes| - 1;
      GraphOfDistinct(nodes[..n]);
      forall i | 0 <= i < n ensures nodes[i].id in GraphOf(nodes) && GraphOf(nodes)[nodes[i].id] == nodes[i].dependencies {
        assert nodes[..n][i] == nodes[i] && nodes[i].id != nodes[n].id;
      }
    }
  }

  /** With unique identifiers: every dependency is known and no node reaches itself by a nonempty path. */
  lemma AcceptsKnownAcyclic(nodes: seq<Node>)
    requires DistinctIds(nodes)
    ensures Accepts(nodes) <==> (forall n :: n in nodes ==> Elements(n.dependencies) <= Ids(nodes)) && Acyclic(GraphOf(nodes))
  {
    FirstDefectAbsent(nodes, Ids(nodes));
    GraphOfDistinct(nodes);
    if Acyclic(GraphOf(nodes)) {
      forall n | n in nodes ensures n.id !in n.dependencies {
        if n.id in n.dependencies { StepReaches(GraphOf(nodes), n.id, n.id); }
      }
    }
  }

  // ----- minimal elements -----

  lemma RepeatInSmallSet(p: seq<string>, s: set<string>)
    requires Elements(p) <= s && |p| > |s|
    ensures !Distinct(p)
  {
    DistinctCounts(p);
    SubsetCardinality(Elements(p), s);
  }

  lemma {:induction false} SubsetCardinality(a: set<string>, b: set<string>)
    requires a <= b
    ensures |a| <= |b|
  {
    if x :| x in a {
      SubsetCardinality(a - {x}, b - {x});
    }
  }

  ghost predicate DependsInto(g: Graph, x: string, s: set<string>)
    requires x in g
  {
    exists d :: d in g[x] && d in s
  }

  lemma {:induction false} WalkInside(g: Graph, s: set<string>, start: string, n: nat) returns (p: seq<string>)
    requires s <= g.Keys && start in s
    requires forall x :: x in s ==> DependsInto(g, x, s)
    ensures IsPath(g, p) && |p| == n + 1 && forall x :: x in p ==> x in s
  {
    if n == 0 {
      p := [start];
    } else {
      var q := WalkInside(g, s, start, n - 1);
      assert q[|q| - 1] in q;
      var d :| d in g[q[|q| - 1]] && d in s;
      PathExtends(g, q, d);
      p := q + [d];
    }
  }

  lemma EndlessWalkCycles(g: Graph, s: set<string>, start: string)
    requires s <= g.Keys && start in s
    requires forall x :: x in s ==> DependsInto(g, x, s)
    ensures !Acyclic(g)
  {
    var p := WalkInside(g, s, start, |s|);
    RepeatInSmallSet(p, s);
    var i, j :| 0 <= i < j < |p| && p[i] == p[j];
    SegmentReaches(g, p, i, j);
  }

  /** In an acyclic graph every nonempty set of nodes has one with no dependency inside the set. */
  lemma MinimalNode(g: Graph, s: set<string>) returns (x: string)
    requires Acyclic(g) && s <= g.Keys && s != {}
    ensures x in s && !DependsInto(g, x, s)
  {
    var start :| start in s;
    if forall x :: x in s ==> DependsInto(g, x, s) {
      EndlessWalkCycles(g, s, start);
    }
    x :| x in s && !DependsInto(g, x, s);
  }
}
