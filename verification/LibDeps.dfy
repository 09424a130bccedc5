/**
  The memoised library-dependency closure of site_scons/libdeps.py.

  A node carries its direct dependencies, an "exploring" flag and a cache.  The
  closure is a recursion over nodes that raises a cycle error when it meets a
  node already being explored; the error collects the cycle while it unwinds.
  `g` is the dependency graph the direct dependencies spell out and `path` the
  nodes being explored, outermost first.
*/
module LibDeps {
  import opened Options
  import opened Walks

  class Node {
    var direct: seq<Node?>
    var exploring: bool
    var cached: Option<set<Node>>

    constructor ()
      ensures direct == [] && !exploring && cached == None
    {
      direct, exploring, cached := [], false, None;
    }
  }

  /** A set of nodes, or the `cycle_nodes` of a DependencyCycleError. */
  datatype Result = Deps(deps: set<Node>) | CycleError(cycleNodes: seq<Node>)

  ghost function Children(direct: seq<Node?>): set<Node> {
    set c: Node | c in direct
  }

  /** `g` is the graph of the direct dependencies; empty entries are no dependencies. */
  ghost predicate GraphOf(g: map<Node, set<Node>>)
    reads g.Keys`direct
  {
    EdgeClosed(g) && forall n :: n in g ==> g[n] == Children(n.direct)
  }

  /** Every cache holds the exact closure, and no node that hits a cycle has one. */
  ghost predicate CachesExact(g: map<Node, set<Node>>)
    reads g.Keys`cached
  {
    forall n :: n in g && n.cached.Some? ==> n.cached.value == ReachSet(g, n) && !HitsCycle(g, n)
  }

  /** The nodes being explored form a chain of dependencies. */
  ghost predicate Exploring(g: map<Node, set<Node>>, path: seq<Node>)
    reads g.Keys`exploring
  {
    && Distinct(path) && Linked(g, path)
    && (forall n :: n in path ==> n in g)
    && (forall n :: n in g ==> (n.exploring <==> n in path))
  }

  /** A query may continue the chain at `node`. */
  ghost predicate Extends(g: map<Node, set<Node>>, path: seq<Node>, node: Node) {
    node in g && (path == [] || Edge(g, path[|path| - 1], node))
  }

  /** A finished cycle error: first equals last, edges in between, otherwise distinct. */
  ghost predicate FullCycle(g: map<Node, set<Node>>, c: seq<Node>) {
    |c| >= 2 && c[0] == c[|c| - 1] && Linked(g, c) && Distinct(c[..|c| - 1])
  }

  /** A cycle error on its way up: a chain from `node` to a node being explored. */
  ghost predicate PartialCycle(g: map<Node, set<Node>>, path: seq<Node>, node: Node, c: seq<Node>) {
    && c != [] && c[0] == node && c[|c| - 1] in path && Linked(g, c)
    && Distinct(c[..|c| - 1]) && (forall i :: 0 <= i < |c| - 1 ==> c[i] !in path)
  }

  /** `deps` is what the nodes of `done` are and reach, and none of them hits a cycle. */
  ghost predicate Gathered(g: map<Node, set<Node>>, done: set<Node>, deps: set<Node>) {
    && deps <= g.Keys && done <= g.Keys
    && (forall c :: c in done ==> !HitsCycle(g, c))
    && forall b :: b in g ==> (b in deps <==> exists c :: c in done && (b == c || b in ReachSet(g, c)))
  }

  /** What a query of `node` promises while `path` is being explored. */
  ghost predicate Answer(g: map<Node, set<Node>>, path: seq<Node>, node: Node, r: Result) {
    match r
    case Deps(deps) => deps == ReachSet(g, node) && !HitsCycle(g, node)
    case CycleError(c) =>
      HitsCycle(g, node) && (FullCycle(g, c) || PartialCycle(g, path, node, c))
  }

  // ----- The code

  method GetLibdepsOf(node: Node, ghost g: map<Node, set<Node>>, ghost path: seq<Node>) returns (r: Result)
    requires GraphOf(g) && CachesExact(g) && Exploring(g, path) && Extends(g, path, node)
    modifies g.Keys`exploring, g.Keys`cached
    ensures CachesExact(g) && Exploring(g, path)
    ensures Answer(g, path, node, r)
    ensures r.Deps? ==> node.cached == Some(r.deps)
    decreases g.Keys - set n | n in path, 1
  {
    if node.cached == None {
      r := ComputeLibdeps(node, g, path);
      if r.CycleError? {
        return;
      }
      node.cached := Some(r.deps);
    }
    r := Deps(node.cached.value);
  }

  method ComputeLibdeps(node: Node, ghost g: map<Node, set<Node>>, ghost path: seq<Node>) returns (r: Result)
    requires GraphOf(g) && CachesExact(g) && Exploring(g, path) && Extends(g, path, node)
    modifies g.Keys`exploring, g.Keys`cached
    ensures CachesExact(g) && Exploring(g, path)
    ensures Answer(g, path, node, r)
    decreases g.Keys - set n | n in path, 0
  {
    if node.exploring {
      RaiseAtExplored(g, path, node);
      return CycleError([node]);
    }
    EnterNode(g, path, node);
    node.exploring := true;
    r := ExploreChildren(node, g, path);
    node.exploring := false;
  }

  /** The body that the flag brackets: the loop over the direct dependencies and its handler. */
  method ExploreChildren(node: Node, ghost g: map<Node, set<Node>>, ghost path: seq<Node>) returns (r: Result)
    requires GraphOf(g) && CachesExact(g) && Exploring(g, path + [node]) && node in g && node !in path
    modifies g.Keys`exploring, g.Keys`cached
    ensures CachesExact(g) && Exploring(g, path + [node])
    ensures Answer(g, path, node, r)
    decreases g.Keys - set n | n in path + [node], 2
  {
    ghost var inner := path + [node];
    assert forall c :: c in g[node] ==> Extends(g, inner, c);
    var deps: set<Node> := {};
    ghost var done: set<Node> := {};
    for i := 0 to |node.direct|
      invariant CachesExact(g) && Exploring(g, inner)
      invariant done == Children(node.direct[..i]) && Gathered(g, done, deps)
    {
      var child := node.direct[i];
      NextChild(node.direct, i);
      if child == null {
        continue;
      }
      var sub := GetLibdepsOf(child, g, inner);
      if sub.CycleError? {
        Unwind(g, path, node, child, sub.cycleNodes);
        return CycleError(WithCaller(node, sub.cycleNodes));
      }
      GatherMore(g, done, deps, child);
      deps := deps + {child} + sub.deps;
      done := done + {child};
    }
    assert node.direct[..|node.direct|] == node.direct;
    GatheredAll(g, node, deps);
    r := Deps(deps);
  }

  /** The handler: until the cycle is closed, the caller goes in front. */
  function WithCaller(node: Node, c: seq<Node>): seq<Node>
    requires c != []
  {
    if |c| == 1 || c[0] != c[|c| - 1] then [node] + c else c
  }

  /** Any query made while nothing is being explored. */
  method GetLibdeps(node: Node, ghost g: map<Node, set<Node>>) returns (r: Result)
    requires GraphOf(g) && CachesExact(g) && node in g
    requires forall n :: n in g ==> !n.exploring
    modifies g.Keys`exploring, g.Keys`cached
    ensures CachesExact(g)
    ensures forall n :: n in g ==> !n.exploring
    ensures r.CycleError? <==> HitsCycle(g, node)
    ensures r.Deps? ==> r.deps == ReachSet(g, node)
    ensures r.CycleError? ==> FullCycle(g, r.cycleNodes)
  {
    r := GetLibdepsOf(node, g, []);
  }

  // ----- Why it works

  /** A node met while it is being explored lies on a cycle. */
  lemma RaiseAtExplored(g: map<Node, set<Node>>, path: seq<Node>, node: Node)
    requires Linked(g, path) && Extends(g, path, node) && node in path
    ensures HitsCycle(g, node) && PartialCycle(g, path, node, [node])
  {
    var k :| 0 <= k < |path| && path[k] == node;
    var last := |path| - 1;
    EdgeReaches(g, path[last], node);
    if k < last {
      LinkedReaches(g, path, k, last);
      ReachesTrans(g, node, path[last], node);
    }
  }

  lemma EnterNode(g: map<Node, set<Node>>, path: seq<Node>, node: Node)
    requires Distinct(path) && Linked(g, path) && Extends(g, path, node) && node !in path
    ensures Distinct(path + [node]) && Linked(g, path + [node])
    ensures forall n :: n in path + [node] <==> n in path || n == node
    ensures (g.Keys - set n | n in path + [node]) < (g.Keys - set n | n in path)
  {
    var inner := path + [node];
    forall i | 0 <= i < |inner| - 1 ensures Edge(g, inner[i], inner[i + 1]) {
      if i < |path| - 1 { assert Edge(g, path[i], path[i + 1]); }
    }
    assert node in g.Keys - set n | n in path;
    assert node !in g.Keys - set n | n in path + [node];
  }

  lemma NextChild(direct: seq<Node?>, i: nat)
    requires i < |direct|
    ensures Children(direct[..i + 1]) == Children(direct[..i]) + if direct[i] == null then {} else {direct[i]}
    ensures direct[i] != null ==> direct[i] in Children(direct)
  {
    assert direct[..i + 1] == direct[..i] + [direct[i]];
  }

  lemma GatherMore(g: map<Node, set<Node>>, done: set<Node>, deps: set<Node>, child: Node)
    requires Gathered(g, done, deps) && child in g && !HitsCycle(g, child)
    ensures Gathered(g, done + {child}, deps + {child} + ReachSet(g, child))
  {
    forall b | b in g && b in deps + {child} + ReachSet(g, child)
      ensures exists c :: c in done + {child} && (b == c || b in ReachSet(g, c))
    {
      if b in deps {
        var c :| c in done && (b == c || b in ReachSet(g, c));
        assert c in done + {child};
      } else {
        assert child in done + {child};
      }
    }
  }

  lemma GatheredAll(g: map<Node, set<Node>>, node: Node, deps: set<Node>)
    requires EdgeClosed(g) && node in g && Gathered(g, g[node], deps)
    ensures deps == ReachSet(g, node) && !HitsCycle(g, node)
  {
    ReachSetStep(g, node);
    HitsCycleStep(g, node);
  }

  /** The cycle error a child raised, as it leaves the parent. */
  lemma Unwind(g: map<Node, set<Node>>, path: seq<Node>, node: Node, child: Node, c: seq<Node>)
    requires EdgeClosed(g) && Edge(g, node, child) && node !in path
    requires HitsCycle(g, child)
    requires FullCycle(g, c) || PartialCycle(g, path + [node], child, c)
    ensures HitsCycle(g, node)
    ensures var d := WithCaller(node, c);
            FullCycle(g, d) || PartialCycle(g, path, node, d)
  {
    HitsCycleStep(g, node);
    if PartialCycle(g, path + [node], child, c) && !FullCycle(g, c) {
      var last := |c| - 1;
      if last > 0 { assert c[0] !in path + [node]; }
      var d := [node] + c;
      assert d[..|d| - 1] == [node] + c[..last];
      forall i | 0 <= i < |d| - 1 ensures Edge(g, d[i], d[i + 1]) {
        if i > 0 { assert Edge(g, c[i - 1], c[i]); }
      }
      forall i | 0 <= i < last ensures c[i] != node && c[i] !in path {
        assert c[i] !in path + [node];
        assert node in path + [node];
      }
    }
  }
}
