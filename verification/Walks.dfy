/**
  Directed graphs as finite maps from a node to the set of its successors, and
  what it means to reach a node or to lie on a cycle.
*/
module Walks {

  ghost predicate EdgeClosed<N>(g: map<N, set<N>>) {
    forall a :: a in g ==> g[a] <= g.Keys
  }

  ghost predicate Edge<N>(g: map<N, set<N>>, a: N, b: N) {
    a in g && b in g[a]
  }

  /** `b` is reached from `a` along exactly `n` edges. */
  ghost predicate ReachesIn<N>(g: map<N, set<N>>, a: N, b: N, n: nat) {
    if n == 0 then a == b
    else a in g && exists m :: m in g[a] && ReachesIn(g, m, b, n - 1)
  }

  /** `b` is reached from `a` along one or more edges. */
  ghost predicate Reaches<N>(g: map<N, set<N>>, a: N, b: N) {
    exists n: nat :: n > 0 && ReachesIn(g, a, b, n)
  }

  ghost function ReachSet<N>(g: map<N, set<N>>, a: N): set<N> {
    set b | b in g.Keys && Reaches(g, a, b)
  }

  /** `a` lies on a cycle or reaches one. */
  ghost predicate HitsCycle<N>(g: map<N, set<N>>, a: N) {
    exists c :: c in g && (c == a || Reaches(g, a, c)) && Reaches(g, c, c)
  }

  ghost predicate Acyclic<N>(g: map<N, set<N>>) {
    forall a :: a in g ==> !Reaches(g, a, a)
  }

  ghost predicate Distinct<N>(s: seq<N>) {
    forall i, j :: 0 <= i < j < |s| ==> s[i] != s[j]
  }

  /** Consecutive entries are joined by edges. */
  ghost predicate Linked<N>(g: map<N, set<N>>, p: seq<N>) {
    forall i :: 0 <= i < |p| - 1 ==> Edge(g, p[i], p[i + 1])
  }

  /** Distinct nodes joined by edges, with an edge from the last back to the first. */
  ghost predicate IsCycle<N>(g: map<N, set<N>>, c: seq<N>) {
    c != [] && Distinct(c) && Linked(g, c) && Edge(g, c[|c| - 1], c[0])
  }

  // ----- Composition and decomposition

  lemma {:induction false} ReachesInTrans<N>(g: map<N, set<N>>, a: N, b: N, c: N, m: nat, n: nat)
    requires ReachesIn(g, a, b, m) && ReachesIn(g, b, c, n)
    ensures ReachesIn(g, a, c, m + n)
    decreases m
  {
    if m > 0 {
      var k :| k in g[a] && ReachesIn(g, k, b, m - 1);
      ReachesInTrans(g, k, b, c, m - 1, n);
    }
  }

  lemma ReachesTrans<N>(g: map<N, set<N>>, a: N, b: N, c: N)
    requires Reaches(g, a, b) && Reaches(g, b, c)
    ensures Reaches(g, a, c)
  {
    var m: nat :| m > 0 && ReachesIn(g, a, b, m);
    var n: nat :| n > 0 && ReachesIn(g, b, c, n);
    ReachesInTrans(g, a, b, c, m, n);
  }

  lemma EdgeReaches<N>(g: map<N, set<N>>, a: N, b: N)
    requires Edge(g, a, b)
    ensures Reaches(g, a, b)
  {
    assert ReachesIn(g, b, b, 0);
    assert ReachesIn(g, a, b, 1);
  }

  /** A walk starts with an edge. */
  lemma FirstEdge<N>(g: map<N, set<N>>, a: N, b: N) returns (c: N)
    requires Reaches(g, a, b)
    ensures Edge(g, a, c) && (c == b || Reaches(g, c, b))
  {
    var n: nat :| n > 0 && ReachesIn(g, a, b, n);
    c :| c in g[a] && ReachesIn(g, c, b, n - 1);
  }

  /** A walk never leaves a set closed under edges. */
  lemma {:induction false} StaysInside<N>(g: map<N, set<N>>, s: set<N>, a: N, b: N, n: nat)
    requires forall x :: x in s && x in g ==> g[x] <= s
    requires a in s && ReachesIn(g, a, b, n)
    ensures b in s
    decreases n
  {
    if n > 0 {
      var c :| c in g[a] && ReachesIn(g, c, b, n - 1);
      StaysInside(g, s, c, b, n - 1);
    }
  }

  lemma {:induction false} LinkedReaches<N>(g: map<N, set<N>>, p: seq<N>, i: nat, j: nat)
    requires Linked(g, p) && i < j < |p|
    ensures Reaches(g, p[i], p[j])
    decreases j - i
  {
    EdgeReaches(g, p[i], p[i + 1]);
    if i + 1 < j {
      LinkedReaches(g, p, i + 1, j);
      ReachesTrans(g, p[i], p[i + 1], p[j]);
    }
  }

  /** The nodes of a cycle reach themselves. */
  lemma CycleReaches<N>(g: map<N, set<N>>, c: seq<N>)
    requires IsCycle(g, c)
    ensures Reaches(g, c[0], c[0]) && !Acyclic(g)
  {
    var last := |c| - 1;
    EdgeReaches(g, c[last], c[0]);
    if last > 0 {
      LinkedReaches(g, c, 0, last);
      ReachesTrans(g, c[0], c[last], c[0]);
    }
  }

  // ----- One step of a depth-first traversal

  /** What a node reaches is its successors and what they reach. */
  lemma ReachSetStep<N>(g: map<N, set<N>>, a: N)
    requires EdgeClosed(g) && a in g
    ensures forall b :: b in ReachSet(g, a) <==> exists c :: c in g[a] && (b == c || b in ReachSet(g, c))
  {
    forall b | b in ReachSet(g, a)
      ensures exists c :: c in g[a] && (b == c || b in ReachSet(g, c))
    {
      var c := FirstEdge(g, a, b);
    }
    forall b, c | c in g[a] && (b == c || b in ReachSet(g, c))
      ensures b in ReachSet(g, a)
    {
      EdgeReaches(g, a, c);
      if b != c { ReachesTrans(g, a, c, b); }
    }
  }

  /** A node hits a cycle exactly when one of its successors does. */
  lemma HitsCycleStep<N>(g: map<N, set<N>>, a: N)
    requires EdgeClosed(g) && a in g
    ensures HitsCycle(g, a) <==> exists c :: c in g[a] && HitsCycle(g, c)
  {
    if HitsCycle(g, a) {
      var k :| k in g && (k == a || Reaches(g, a, k)) && Reaches(g, k, k);
      var c := FirstEdge(g, a, k);
      assert c == k || Reaches(g, c, k);
      assert HitsCycle(g, c);
    }
    forall c | c in g[a] && HitsCycle(g, c)
      ensures HitsCycle(g, a)
    {
      var k :| k in g && (k == c || Reaches(g, c, k)) && Reaches(g, k, k);
      EdgeReaches(g, a, c);
      if k != c { ReachesTrans(g, a, c, k); }
    }
  }

  // ----- Two-coloured graphs

  ghost predicate Alternating<N>(c: seq<N>, red: set<N>) {
    forall i :: 0 <= i < |c| - 1 ==> (c[i] in red <==> c[i + 1] !in red)
  }

  ghost predicate Bipartite<N>(g: map<N, set<N>>, red: set<N>) {
    forall a, b :: a in g && b in g[a] ==> (a in red <==> b !in red)
  }

  lemma {:induction false} AlternatingParity<N>(c: seq<N>, red: set<N>, i: nat)
    requires Alternating(c, red) && i < |c|
    ensures (c[i] in red) == ((c[0] in red) == (i % 2 == 0))
  {
    if i > 0 { AlternatingParity(c, red, i - 1); }
  }

  /** A cycle of a two-coloured graph alternates colours and has even length. */
  lemma BipartiteCycle<N>(g: map<N, set<N>>, red: set<N>, c: seq<N>)
    requires Bipartite(g, red) && IsCycle(g, c)
    ensures Alternating(c, red) && |c| % 2 == 0
  {
    forall i | 0 <= i < |c| - 1
      ensures c[i] in red <==> c[i + 1] !in red
    {
      assert Edge(g, c[i], c[i + 1]);
    }
    AlternatingParity(c, red, |c| - 1);
  }
}
