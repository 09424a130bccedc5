/**
  The wait-for graph of buildscripts/gdb/mongo_lock.py: threads wait on locks and
  locks are held by threads.  Nodes are stored under a printed key.
*/
module LockGraph {
  import opened Walks
  import opened Keys

  /** The entry of a node: what it stands for and the keys of its successors. */
  datatype Entry = Entry(node: Entity, next: seq<string>)

  /** `b` is listed as a successor of `a`. */
  ghost predicate Listed(nodes: map<string, Entry>, a: string, b: string) {
    a in nodes && b in nodes[a].next
  }

  /** The graph that a dictionary of entries spells out. */
  ghost function EdgesOf(nodes: map<string, Entry>): (g: map<string, set<string>>)
    ensures g.Keys == nodes.Keys
    ensures forall a, b :: Edge(g, a, b) <==> Listed(nodes, a, b)
  {
    map k | k in nodes :: set m | m in nodes[k].next
  }

  /** No successor is listed twice, and every one is a node. */
  ghost predicate WellFormed(nodes: map<string, Entry>) {
    && (forall k :: k in nodes ==> Distinct(nodes[k].next))
    && (forall a, b :: Listed(nodes, a, b) ==> b in nodes)
  }

  /** Entries lie under their own key. */
  ghost predicate Keyed(nodes: map<string, Entry>) {
    forall k :: k in nodes ==> nodes[k].node.Key() == k
  }

  ghost predicate IsThread(nodes: map<string, Entry>, k: string) {
    k in nodes && nodes[k].node.Thread?
  }

  /** Threads wait only on locks and locks are held only by threads. */
  ghost predicate TwoSided(nodes: map<string, Entry>) {
    forall a, b :: Listed(nodes, a, b) ==> (IsThread(nodes, a) <==> !IsThread(nodes, b))
  }

  // ----- Insertion

  function WithNode(nodes: map<string, Entry>, key: string, node: Entity): map<string, Entry> {
    if key in nodes then nodes else nodes[key := Entry(node, [])]
  }

  function WithArrow(nodes: map<string, Entry>, from: string, to: string): map<string, Entry>
    requires from in nodes
  {
    var f := nodes[from];
    if to in f.next then nodes else nodes[from := f.(next := f.next + [to])]
  }

  /** `from` and `to` under the given keys, where missing, and an arrow between them. */
  function Inserted(nodes: map<string, Entry>, f: string, from: Entity, t: string, to: Entity): map<string, Entry> {
    WithArrow(WithNode(WithNode(nodes, f, from), t, to), f, t)
  }

  function WithEdge(nodes: map<string, Entry>, from: Entity, to: Entity): map<string, Entry> {
    Inserted(nodes, from.Key(), from, to.Key(), to)
  }

  /** Old entries keep their node, and all edges are the old ones and those of `extra`. */
  ghost predicate Grows(nodes: map<string, Entry>, m: map<string, Entry>, extra: set<(string, string)>) {
    && nodes.Keys <= m.Keys
    && (forall k :: k in nodes ==> m[k].node == nodes[k].node)
    && (forall a, b :: Listed(m, a, b) <==> Listed(nodes, a, b) || (a, b) in extra)
  }

  lemma WithNodeSound(nodes: map<string, Entry>, key: string, node: Entity)
    requires WellFormed(nodes)
    ensures var m := WithNode(nodes, key, node);
            WellFormed(m) && key in m && Grows(nodes, m, {}) && (key in nodes || m[key].node == node)
  {
    var m := WithNode(nodes, key, node);
    forall a, b ensures Listed(m, a, b) <==> Listed(nodes, a, b) {}
  }

  lemma WithArrowSound(nodes: map<string, Entry>, from: string, to: string)
    requires WellFormed(nodes) && from in nodes && to in nodes
    ensures var m := WithArrow(nodes, from, to);
            WellFormed(m) && m.Keys == nodes.Keys && Grows(nodes, m, {(from, to)})
  {
    var f, m := nodes[from], WithArrow(nodes, from, to);
    if to !in f.next {
      assert forall x :: x in f.next + [to] <==> x in f.next || x == to;
    }
    forall a, b ensures Listed(m, a, b) <==> Listed(nodes, a, b) || (a == from && b == to) {}
  }

  lemma InsertedSound(nodes: map<string, Entry>, f: string, from: Entity, t: string, to: Entity)
    requires WellFormed(nodes)
    ensures var m := Inserted(nodes, f, from, t, to);
            && WellFormed(m) && Grows(nodes, m, {(f, t)}) && m.Keys == nodes.Keys + {f, t}
            && (forall k :: k in m && k !in nodes ==> (k == f && m[k].node == from) || (k == t && m[k].node == to))
  {
    var x := WithNode(nodes, f, from);
    WithNodeSound(nodes, f, from);
    WithNodeSound(x, t, to);
    WithArrowSound(WithNode(x, t, to), f, t);
  }

  /** Adding an edge adds just that edge, with its ends, and keeps the shape of the graph. */
  lemma WithEdgeSound(nodes: map<string, Entry>, from: Entity, to: Entity)
    requires WellFormed(nodes) && Keyed(nodes)
    ensures var m := WithEdge(nodes, from, to);
            && WellFormed(m) && Keyed(m) && Grows(nodes, m, {(from.Key(), to.Key())})
            && m.Keys == nodes.Keys + {from.Key(), to.Key()}
  {
    InsertedSound(nodes, from.Key(), from, to.Key(), to);
  }

  /** Whether a key is that of a thread can be read off any entity with that key. */
  lemma KindOfKey(nodes: map<string, Entry>, e: Entity)
    requires Keyed(nodes) && e.Key() in nodes
    ensures IsThread(nodes, e.Key()) <==> e.Thread?
  {
    KeyIffSame(nodes[e.Key()].node, e);
  }

  lemma GrowsTwoSided(nodes: map<string, Entry>, m: map<string, Entry>, a: string, b: string)
    requires WellFormed(nodes) && TwoSided(nodes) && Grows(nodes, m, {(a, b)})
    requires IsThread(m, a) <==> !IsThread(m, b)
    ensures TwoSided(m)
  {
  }

  lemma WithEdgeTwoSided(nodes: map<string, Entry>, from: Entity, to: Entity)
    requires WellFormed(nodes) && Keyed(nodes) && TwoSided(nodes) && from.Thread? != to.Thread?
    ensures TwoSided(WithEdge(nodes, from, to))
  {
    var m := WithEdge(nodes, from, to);
    WithEdgeSound(nodes, from, to);
    KindOfKey(m, from);
    KindOfKey(m, to);
    GrowsTwoSided(nodes, m, from.Key(), to.Key());
  }

  // ----- The graph the holder finders build

  /** A thread waiting on a lock, and a thread holding it. */
  datatype Wait = Wait(waiter: Entity, lock: Entity, holder: Entity)

  predicate IsWait(w: Wait) {
    w.waiter.Thread? && w.lock.Lock? && w.holder.Thread?
  }

  function Built(waits: seq<Wait>): map<string, Entry> {
    if waits == [] then map[]
    else
      var w, before := waits[|waits| - 1], Built(waits[..|waits| - 1]);
      WithEdge(WithEdge(before, w.waiter, w.lock), w.lock, w.holder)
  }

  ghost predicate WaitEdge(w: Wait, a: string, b: string) {
    (a == w.waiter.Key() && b == w.lock.Key()) || (a == w.lock.Key() && b == w.holder.Key())
  }

  /** One more wait adds its two edges. */
  lemma OneMoreWait(nodes: map<string, Entry>, w: Wait)
    requires WellFormed(nodes) && Keyed(nodes) && TwoSided(nodes) && IsWait(w)
    ensures var m := WithEdge(WithEdge(nodes, w.waiter, w.lock), w.lock, w.holder);
            && WellFormed(m) && Keyed(m) && TwoSided(m)
            && forall a, b :: Listed(m, a, b) <==> Listed(nodes, a, b) || WaitEdge(w, a, b)
  {
    WithEdgeSound(nodes, w.waiter, w.lock);
    WithEdgeTwoSided(nodes, w.waiter, w.lock);
    var m := WithEdge(nodes, w.waiter, w.lock);
    WithEdgeSound(m, w.lock, w.holder);
    WithEdgeTwoSided(m, w.lock, w.holder);
  }

  ghost predicate SomeWaitEdge(waits: seq<Wait>, a: string, b: string) {
    exists w :: w in waits && WaitEdge(w, a, b)
  }

  lemma SomeWaitEdgeLast(waits: seq<Wait>, a: string, b: string)
    requires waits != []
    ensures SomeWaitEdge(waits, a, b) <==>
            SomeWaitEdge(waits[..|waits| - 1], a, b) || WaitEdge(waits[|waits| - 1], a, b)
  {
    assert waits == waits[..|waits| - 1] + [waits[|waits| - 1]];
  }

  /** Any sequence of waits gives a well-formed two-sided graph with exactly their edges. */
  lemma {:induction false} BuiltSound(waits: seq<Wait>)
    requires forall w :: w in waits ==> IsWait(w)
    ensures WellFormed(Built(waits)) && Keyed(Built(waits)) && TwoSided(Built(waits))
    ensures forall a, b :: Listed(Built(waits), a, b) <==> SomeWaitEdge(waits, a, b)
  {
    if waits != [] {
      var last := |waits| - 1;
      BuiltSound(waits[..last]);
      OneMoreWait(Built(waits[..last]), waits[last]);
      forall a, b ensures Listed(Built(waits), a, b) <==> SomeWaitEdge(waits, a, b) {
        SomeWaitEdgeLast(waits, a, b);
      }
    }
  }

  // ----- Pruning

  ghost predicate HasEdge(nodes: map<string, Entry>, k: string) {
    exists m :: Listed(nodes, k, m) || Listed(nodes, m, k)
  }

  ghost function Pruned(nodes: map<string, Entry>): map<string, Entry> {
    map k | k in nodes && HasEdge(nodes, k) :: nodes[k]
  }

  lemma EdgeHere(nodes: map<string, Entry>, k: string)
    requires k in nodes
    ensures HasEdge(nodes, k) <==> nodes[k].next != [] || exists a :: Listed(nodes, a, k)
  {
    if nodes[k].next != [] {
      assert Listed(nodes, k, nodes[k].next[0]);
    }
  }

  lemma PrunedListed(nodes: map<string, Entry>, a: string, b: string)
    requires WellFormed(nodes)
    ensures Listed(Pruned(nodes), a, b) <==> Listed(nodes, a, b)
    ensures Listed(nodes, a, b) ==> a in Pruned(nodes) && b in Pruned(nodes)
  {
    if Listed(nodes, a, b) {
      assert HasEdge(nodes, a) && HasEdge(nodes, b);
    }
  }

  /** Dropping the entries without an edge drops no edge. */
  lemma PrunedSound(nodes: map<string, Entry>)
    requires WellFormed(nodes)
    ensures WellFormed(Pruned(nodes)) && (TwoSided(nodes) ==> TwoSided(Pruned(nodes)))
    ensures forall a, b :: Listed(Pruned(nodes), a, b) <==> Listed(nodes, a, b)
  {
    forall a, b
      ensures Listed(Pruned(nodes), a, b) <==> Listed(nodes, a, b)
      ensures Listed(nodes, a, b) ==> a in Pruned(nodes) && b in Pruned(nodes)
    {
      PrunedListed(nodes, a, b);
    }
  }

  /** What is left after pruning has an edge, so pruning again changes nothing. */
  lemma PrunedTwice(nodes: map<string, Entry>)
    requires WellFormed(nodes)
    ensures Pruned(Pruned(nodes)) == Pruned(nodes)
  {
    forall k | k in Pruned(nodes) ensures HasEdge(Pruned(nodes), k) {
      var j :| Listed(nodes, k, j) || Listed(nodes, j, k);
      PrunedListed(nodes, k, j);
      PrunedListed(nodes, j, k);
    }
  }

  /** Every cycle of the graph built and pruned alternates threads and locks, so its length is even. */
  lemma DeadlockAlternates(waits: seq<Wait>, c: seq<string>)
    requires forall w :: w in waits ==> IsWait(w)
    requires IsCycle(EdgesOf(Pruned(Built(waits))), c)
    ensures |c| % 2 == 0
    ensures forall i :: 0 <= i < |c| - 1 ==>
              (IsThread(Pruned(Built(waits)), c[i]) <==> !IsThread(Pruned(Built(waits)), c[i + 1]))
  {
    var m := Pruned(Built(waits));
    BuiltSound(waits);
    PrunedSound(Built(waits));
    var threads := set k | k in m && IsThread(m, k);
    TwoSidedBipartite(m, threads);
    BipartiteCycle(EdgesOf(m), threads, c);
  }

  lemma TwoSidedBipartite(m: map<string, Entry>, threads: set<string>)
    requires TwoSided(m) && threads == set k | k in m && IsThread(m, k)
    ensures Bipartite(EdgesOf(m), threads)
  {
    forall a, b | a in EdgesOf(m) && b in EdgesOf(m)[a]
      ensures a in threads <==> b !in threads
    {
      assert Edge(EdgesOf(m), a, b);
    }
  }

  // ----- The code

  class Graph {
    var nodes: map<string, Entry>

    constructor ()
      ensures nodes == Built([])
    {
      nodes := map[];
    }

    method AddNode(node: Entity)
      modifies this
      ensures nodes == WithNode(old(nodes), node.Key(), node)
    {
      if node.Key() !in nodes {
        nodes := nodes[node.Key() := Entry(node, [])];
      }
    }

    method AddEdge(from: Entity, to: Entity)
      modifies this
      ensures nodes == WithEdge(old(nodes), from, to)
    {
      AddNode(from);
      AddNode(to);
      AddArrow(from.Key(), to.Key());
    }

    /** The end of `add_edge`: appends the key unless it is listed already. */
    method AddArrow(from: string, to: string)
      requires from in nodes
      modifies this
      ensures nodes == WithArrow(old(nodes), from, to)
    {
      var f := nodes[from];
      for i := 0 to |f.next|
        invariant to !in f.next[..i]
      {
        if f.next[i] == to {
          return;
        }
      }
      assert f.next[..|f.next|] == f.next;
      nodes := nodes[from := f.(next := f.next + [to])];
    }

    /** The two edges that both holder finders add for a wait. */
    method AddWait(w: Wait, ghost waits: seq<Wait>)
      requires nodes == Built(waits)
      modifies this
      ensures nodes == Built(waits + [w])
    {
      assert (waits + [w])[..|waits|] == waits;
      AddEdge(w.waiter, w.lock);
      AddEdge(w.lock, w.holder);
    }

    /** Whether some entry lists `key` as a successor. */
    method HasIncoming(key: string) returns (found: bool)
      ensures found <==> exists a :: Listed(nodes, a, key)
    {
      var rest := nodes.Keys;
      found := false;
      while rest != {}
        invariant rest <= nodes.Keys
        invariant forall a :: a in nodes && a !in rest ==> !Listed(nodes, a, key)
        decreases rest
      {
        var k :| k in rest;
        if key in nodes[k].next {
          assert Listed(nodes, k, key);
          return true;
        }
        rest := rest - {k};
      }
    }

    method RemoveNodesWithoutEdge()
      requires Keyed(nodes)
      modifies this
      ensures nodes == Pruned(old(nodes))
    {
      var temp: map<string, Entry> := map[];
      var rest := nodes.Keys;
      while rest != {}
        invariant rest <= nodes.Keys && temp.Keys <= nodes.Keys && temp.Keys !! rest
        invariant forall k :: k in temp ==> temp[k] == nodes[k]
        invariant forall k :: k in nodes && k !in rest ==> (k in temp <==> HasEdge(nodes, k))
        invariant nodes == old(nodes)
        decreases rest
      {
        var k :| k in rest;
        var incoming := HasIncoming(nodes[k].node.Key());
        EdgeHere(nodes, k);
        if nodes[k].next != [] || incoming {
          temp := temp[k := nodes[k]];
        }
        rest := rest - {k};
      }
      assert temp == Pruned(nodes);
      nodes := temp;
    }
  }
}
