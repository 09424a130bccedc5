/**
  The depth-first deadlock search of buildscripts/gdb/mongo_lock.py.

  `nodesInCycle` is the list that the source declares as a default argument: it
  is created once and every search continues with what the last one left in it.
  `stale` is that left-over part and `chain` the part the current search added.
*/
module DeadlockSearch {
  import opened Options
  import opened Walks
  import opened LockGraph

  /** No edge leads to a key of `stale`. */
  ghost predicate NoEdgeInto(g: map<string, set<string>>, stale: seq<string>) {
    forall a, b :: Edge(g, a, b) ==> b !in stale
  }

  /** Nodes done with: closed under edges, on no cycle and without an edge into `stale`. */
  ghost predicate Settled(g: map<string, set<string>>, done: set<string>, stale: seq<string>) {
    forall n :: n in done ==>
      n in g && g[n] <= done && !Reaches(g, n, n) && forall m :: m in g[n] ==> m !in stale
  }

  ghost predicate Walking(g: map<string, set<string>>, visited: set<string>, stale: seq<string>, chain: seq<string>) {
    && visited <= g.Keys && Distinct(chain) && Linked(g, chain)
    && (forall k :: k in chain ==> k in visited)
    && Settled(g, visited - (set k | k in chain), stale)
  }

  /** A report ends with an edge to its first node; unless that node is left over, it is a cycle. */
  ghost predicate Report(g: map<string, set<string>>, stale: seq<string>, c: seq<string>) {
    && c != [] && Edge(g, c[|c| - 1], c[0])
    && (c[0] !in stale ==> IsCycle(g, c))
  }

  /** A report is the end of the path list. */
  ghost predicate Reported(g: map<string, set<string>>, stale: seq<string>, path: seq<string>, c: seq<string>) {
    Report(g, stale, c) && |c| <= |path| && c == path[|path| - |c|..]
  }

  function IndexOf(s: seq<string>, x: string): (i: nat)
    requires x in s
    ensures i < |s| && s[i] == x && x !in s[..i]
  {
    if s[0] == x then 0 else
      var j := IndexOf(s[1..], x);
      assert s[..j + 1] == [s[0]] + s[1..][..j];
      j + 1
  }

  class Search {
    var nodesVisited: set<string>
    var nodesInCycle: seq<string>

    constructor ()
      ensures nodesInCycle == []
    {
      nodesVisited, nodesInCycle := {}, [];
    }

    method DepthFirstSearch(nodes: map<string, Entry>, key: string, ghost stale: seq<string>, ghost chain: seq<string>)
      returns (cycle: Option<seq<string>>)
      requires WellFormed(nodes) && key in nodes && key !in nodesVisited
      requires Walking(EdgesOf(nodes), nodesVisited, stale, chain) && nodesInCycle == stale + chain
      requires chain != [] ==> Edge(EdgesOf(nodes), chain[|chain| - 1], key)
      modifies this
      ensures cycle.None? ==>
                && Walking(EdgesOf(nodes), nodesVisited, stale, chain) && nodesInCycle == stale + chain
                && old(nodesVisited) + {key} <= nodesVisited
      ensures cycle.Some? ==> Reported(EdgesOf(nodes), stale, nodesInCycle, cycle.value)
      decreases nodes.Keys - nodesVisited, 0
    {
      ghost var g := EdgesOf(nodes);
      Enter(g, nodesVisited, stale, chain, key);
      nodesVisited := nodesVisited + {key};
      nodesInCycle := nodesInCycle + [key];
      assert nodesInCycle == stale + (chain + [key]);
      cycle := SearchSuccessors(nodes, key, stale, chain);
      if cycle.Some? {
        return;
      }
      nodesInCycle := nodesInCycle[..|nodesInCycle| - 1];
      assert nodesInCycle == stale + chain;
      Leave(g, nodesVisited, stale, chain, key, nodes);
    }

    /** The loop over the successors of the node just entered. */
    method SearchSuccessors(nodes: map<string, Entry>, key: string, ghost stale: seq<string>, ghost chain: seq<string>)
      returns (cycle: Option<seq<string>>)
      requires WellFormed(nodes) && key in nodes && key in nodesVisited
      requires Walking(EdgesOf(nodes), nodesVisited, stale, chain + [key])
      requires nodesInCycle == stale + (chain + [key])
      modifies this
      ensures cycle.None? ==>
                && Walking(EdgesOf(nodes), nodesVisited, stale, chain + [key])
                && nodesInCycle == stale + (chain + [key])
                && old(nodesVisited) <= nodesVisited
                && forall j :: 0 <= j < |nodes[key].next| ==>
                     nodes[key].next[j] in nodesVisited && nodes[key].next[j] !in stale + (chain + [key])
      ensures cycle.Some? ==> Reported(EdgesOf(nodes), stale, nodesInCycle, cycle.value)
      decreases nodes.Keys - nodesVisited, 1
    {
      ghost var g, inner := EdgesOf(nodes), chain + [key];
      var next := nodes[key].next;
      for i := 0 to |next|
        invariant Walking(g, nodesVisited, stale, inner) && nodesInCycle == stale + inner
        invariant old(nodesVisited) <= nodesVisited
        invariant forall j :: 0 <= j < i ==> next[j] in nodesVisited && next[j] !in stale + inner
      {
        var node := next[i];
        assert Listed(nodes, key, node);
        if node in nodesInCycle {
          var at := IndexOf(nodesInCycle, node);
          CutCycle(g, stale, inner, node, at);
          return Some(nodesInCycle[at..]);
        }
        if node !in nodesVisited {
          cycle := DepthFirstSearch(nodes, node, stale, inner);
          if cycle.Some? {
            return;
          }
        }
      }
      return None;
    }

    /**
      On every well-formed graph and whatever an earlier search left behind:
      nothing is reported exactly when the graph has no cycle and no edge to a
      left-over key.
    */
    method DetectCycle(nodes: map<string, Entry>) returns (cycle: Option<seq<string>>)
      requires WellFormed(nodes)
      modifies this
      ensures cycle.None? <==> Acyclic(EdgesOf(nodes)) && NoEdgeInto(EdgesOf(nodes), old(nodesInCycle))
      ensures cycle.None? ==> nodesInCycle == old(nodesInCycle)
      ensures cycle.Some? ==>
                && Report(EdgesOf(nodes), old(nodesInCycle), cycle.value)
                && forall k :: k in cycle.value ==> k in nodesInCycle
      ensures cycle.Some? && old(nodesInCycle) == [] ==> IsCycle(EdgesOf(nodes), cycle.value)
    {
      ghost var stale, g := nodesInCycle, EdgesOf(nodes);
      nodesVisited := {};
      var rest := nodes.Keys;
      while rest != {}
        invariant rest <= nodes.Keys && nodes.Keys - rest <= nodesVisited
        invariant Walking(g, nodesVisited, stale, []) && nodesInCycle == stale
        decreases rest
      {
        var node :| node in rest;
        rest := rest - {node};
        if node !in nodesVisited {
          assert stale + [] == stale;
          var path := DepthFirstSearch(nodes, node, stale, []);
          if path.Some? {
            ReportRefutes(g, stale, path.value);
            return path;
          }
        }
      }
      return None;
    }
  }

  // ----- Why it works

  lemma Enter(g: map<string, set<string>>, visited: set<string>, stale: seq<string>, chain: seq<string>, key: string)
    requires Walking(g, visited, stale, chain) && key in g && key !in visited
    requires chain != [] ==> Edge(g, chain[|chain| - 1], key)
    ensures Walking(g, visited + {key}, stale, chain + [key])
  {
    var inner := chain + [key];
    forall i | 0 <= i < |inner| - 1 ensures Edge(g, inner[i], inner[i + 1]) {
      if i < |chain| - 1 { assert Edge(g, chain[i], chain[i + 1]); }
    }
    assert (visited + {key}) - (set k | k in inner) == visited - (set k | k in chain);
  }

  /** The successors of `key` are settled, so `key` is too. */
  lemma Leave(g: map<string, set<string>>, visited: set<string>, stale: seq<string>, chain: seq<string>, key: string,
              nodes: map<string, Entry>)
    requires WellFormed(nodes) && g == EdgesOf(nodes) && key in nodes && key in visited
    requires Walking(g, visited, stale, chain + [key])
    requires forall j :: 0 <= j < |nodes[key].next| ==>
               nodes[key].next[j] in visited && nodes[key].next[j] !in stale + (chain + [key])
    ensures Walking(g, visited, stale, chain)
  {
    var inner := chain + [key];
    var done := visited - (set k | k in inner);
    forall m | m in g[key] ensures m in done && m !in stale {
      assert Edge(g, key, m) && Listed(nodes, key, m);
    }
    assert key == inner[|chain|];
    NoWayBack(g, done, key);
    assert forall i :: 0 <= i < |chain| ==> chain[i] == inner[i];
    assert forall i :: 0 <= i < |chain| - 1 ==> Edge(g, inner[i], inner[i + 1]);
    assert visited - (set k | k in chain) == done + {key};
  }

  lemma NoWayBack(g: map<string, set<string>>, done: set<string>, key: string)
    requires forall n :: n in done ==> n in g && g[n] <= done
    requires key in g && g[key] <= done && key !in done
    ensures !Reaches(g, key, key)
  {
    if Reaches(g, key, key) {
      var c := FirstEdge(g, key, key);
      if c != key {
        var n: nat :| n > 0 && ReachesIn(g, c, key, n);
        StaysInside(g, done, c, key, n);
      }
    }
  }

  /** The part of the list from the node met again is what gets reported. */
  lemma CutCycle(g: map<string, set<string>>, stale: seq<string>, inner: seq<string>, node: string, at: nat)
    requires inner != [] && Distinct(inner) && Linked(g, inner) && Edge(g, inner[|inner| - 1], node)
    requires at < |stale + inner| && (stale + inner)[at] == node && node !in (stale + inner)[..at]
    ensures Report(g, stale, (stale + inner)[at..])
  {
    var all := stale + inner;
    var c := all[at..];
    assert c[|c| - 1] == inner[|inner| - 1];
    if node !in stale {
      var d := at - |stale|;
      assert c == inner[d..];
      assert forall i :: 0 <= i < |c| ==> c[i] == inner[d + i];
      forall i | 0 <= i < |c| - 1 ensures Edge(g, c[i], c[i + 1]) {
        assert Edge(g, inner[d + i], inner[d + i + 1]);
      }
    }
  }

  lemma ReportRefutes(g: map<string, set<string>>, stale: seq<string>, c: seq<string>)
    requires Report(g, stale, c)
    ensures !(Acyclic(g) && NoEdgeInto(g, stale))
  {
    if c[0] !in stale { CycleReaches(g, c); }
  }
}
