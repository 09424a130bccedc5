/**
  The command of buildscripts/gdb/mongo_lock.py that builds the wait-for graph,
  prunes it and looks for a deadlock.  What the holder finders read from the
  threads is a sequence of waits.
*/
module WaitsForGraph {
  import opened Options
  import opened Walks
  import opened Keys
  import opened LockGraph
  import opened DeadlockSearch

  /** A deadlock among the waits: a cycle of keys along "waits on" and "is held by". */
  ghost predicate IsDeadlock(waits: seq<Wait>, c: seq<string>) {
    && c != [] && Distinct(c) && SomeWaitEdge(waits, c[|c| - 1], c[0])
    && forall i :: 0 <= i < |c| - 1 ==> SomeWaitEdge(waits, c[i], c[i + 1])
  }

  /** The graph the command searches. */
  ghost function Searched(waits: seq<Wait>): map<string, Entry> {
    Pruned(Built(waits))
  }

  ghost predicate AllWaits(waits: seq<Wait>) {
    forall w :: w in waits ==> IsWait(w)
  }

  /** Its edges are those of the waits. */
  lemma SearchedSound(waits: seq<Wait>)
    requires AllWaits(waits)
    ensures WellFormed(Searched(waits)) && TwoSided(Searched(waits))
    ensures forall a, b :: Edge(EdgesOf(Searched(waits)), a, b) <==> SomeWaitEdge(waits, a, b)
  {
    BuiltSound(waits);
    PrunedSound(Built(waits));
  }

  lemma CycleIsDeadlock(waits: seq<Wait>, c: seq<string>)
    requires AllWaits(waits)
    ensures IsCycle(EdgesOf(Searched(waits)), c) <==> IsDeadlock(waits, c)
  {
    SearchedSound(waits);
  }

  /** What a run with an empty path list promises. */
  ghost predicate Answers(waits: seq<Wait>, cycle: Option<seq<string>>) {
    match cycle
    case None => forall c :: !IsDeadlock(waits, c)
    case Some(c) =>
      && IsDeadlock(waits, c) && |c| % 2 == 0
      && forall i :: 0 <= i < |c| - 1 ==>
           (IsThread(Searched(waits), c[i]) <==> !IsThread(Searched(waits), c[i + 1]))
  }

  /**
    Builds, prunes and searches.  With an empty path list the report is a deadlock
    that alternates threads and locks, so of even length, and there is none
    exactly when nothing is reported.  In general nothing is reported exactly when
    there is no cycle and no edge to a key left over from an earlier run.
  */
  method FindDeadlock(search: Search, waits: seq<Wait>) returns (cycle: Option<seq<string>>)
    requires AllWaits(waits)
    modifies search
    ensures cycle.None? <==> Acyclic(EdgesOf(Searched(waits))) &&
                             NoEdgeInto(EdgesOf(Searched(waits)), old(search.nodesInCycle))
    ensures cycle.None? ==> search.nodesInCycle == old(search.nodesInCycle)
    ensures cycle.Some? ==> forall k :: k in cycle.value ==> k in search.nodesInCycle
    ensures cycle.Some? ==> Report(EdgesOf(Searched(waits)), old(search.nodesInCycle), cycle.value)
    ensures old(search.nodesInCycle) == [] ==> Answers(waits, cycle)
  {
    SearchedSound(waits);
    var graph := BuildGraph(waits);
    if graph.nodes == map[] {
      EmptyAnswer(waits, search.nodesInCycle);
      return None;
    }
    cycle := search.DetectCycle(graph.nodes);
    AnswerSound(waits, cycle);
  }

  /** The graph of the waits, pruned. */
  method BuildGraph(waits: seq<Wait>) returns (graph: Graph)
    requires AllWaits(waits)
    ensures fresh(graph) && graph.nodes == Searched(waits)
  {
    graph := AddWaits(waits);
    BuiltSound(waits);
    graph.RemoveNodesWithoutEdge();
  }

  /** The graph of the first `n` waits. */
  ghost function FirstBuilt(waits: seq<Wait>, n: nat): map<string, Entry>
    requires n <= |waits|
  {
    Built(waits[..n])
  }

  lemma NextBuilt(waits: seq<Wait>, n: nat)
    requires n < |waits|
    ensures Built(waits[..n] + [waits[n]]) == FirstBuilt(waits, n + 1)
  {
    assert waits[..n] + [waits[n]] == waits[..n + 1];
  }

  method AddWaits(waits: seq<Wait>) returns (graph: Graph)
    ensures fresh(graph) && graph.nodes == Built(waits)
  {
    graph := new Graph();
    for i := 0 to |waits|
      invariant fresh(graph) && graph.nodes == FirstBuilt(waits, i)
    {
      graph.AddWait(waits[i], waits[..i]);
      NextBuilt(waits, i);
    }
    assert waits[..|waits|] == waits;
  }

  /** A pruned graph without nodes comes from no wait at all. */
  lemma EmptyAnswer(waits: seq<Wait>, stale: seq<string>)
    requires AllWaits(waits) && Searched(waits) == map[]
    ensures Acyclic(EdgesOf(Searched(waits))) && NoEdgeInto(EdgesOf(Searched(waits)), stale)
    ensures Answers(waits, None)
  {
    AnswerSound(waits, None);
  }

  lemma AnswerSound(waits: seq<Wait>, cycle: Option<seq<string>>)
    requires AllWaits(waits)
    ensures (match cycle
             case None => Acyclic(EdgesOf(Searched(waits)))
             case Some(c) => IsCycle(EdgesOf(Searched(waits)), c))
            ==> Answers(waits, cycle)
  {
    match cycle
    case None =>
      forall c ensures Acyclic(EdgesOf(Searched(waits))) ==> !IsDeadlock(waits, c) {
        CycleIsDeadlock(waits, c);
        if IsCycle(EdgesOf(Searched(waits)), c) { CycleReaches(EdgesOf(Searched(waits)), c); }
      }
    case Some(c) =>
      CycleIsDeadlock(waits, c);
      if IsCycle(EdgesOf(Searched(waits)), c) { DeadlockAlternates(waits, c); }
  }

  // ----- Two runs in one session

  /** One thread waiting on a lock that another one holds is no deadlock. */
  lemma OneWaitAcyclic(w: Wait)
    requires IsWait(w) && !w.waiter.Same(w.holder)
    ensures Acyclic(EdgesOf(Searched([w])))
  {
    var g := EdgesOf(Searched([w]));
    var t, l, h := w.waiter.Key(), w.lock.Key(), w.holder.Key();
    SearchedSound([w]);
    KeyIffSame(w.waiter, w.holder);
    KeysDiffer(w.waiter, w.lock);
    KeysDiffer(w.holder, w.lock);
    OneWaitEdges(w);
    forall a | a in g ensures !Reaches(g, a, a) { ShortChain(g, t, l, h, a); }
  }

  lemma OneWaitEdges(w: Wait)
    requires IsWait(w)
    ensures forall a, b :: Edge(EdgesOf(Searched([w])), a, b) <==> WaitEdge(w, a, b)
  {
    SearchedSound([w]);
    assert w in [w];
  }

  lemma ShortChain(g: map<string, set<string>>, t: string, l: string, h: string, a: string)
    requires t != l && l != h && t != h
    requires forall x, y :: Edge(g, x, y) <==> (x == t && y == l) || (x == l && y == h)
    ensures !Reaches(g, a, a)
  {
    if Reaches(g, a, a) {
      var b := FirstEdge(g, a, a);
      var c := FirstEdge(g, b, a);
      if c != a { var d := FirstEdge(g, c, a); }
    }
  }

  /**
    A thread that waits on its own lock is a deadlock and is reported.  A later
    run in which one thread merely waits for another on that lock has none, and
    is reported all the same.
  */
  method SecondRunMisreports(own: Wait, other: Wait)
    returns (first: Option<seq<string>>, second: Option<seq<string>>)
    requires IsWait(own) && IsWait(other)
    requires own.holder.Same(own.waiter) && other.lock.Same(own.lock) && !other.waiter.Same(other.holder)
    ensures first.Some? && IsDeadlock([own], first.value)
    ensures Acyclic(EdgesOf(Searched([other]))) && (forall c :: !IsDeadlock([other], c))
    ensures second.Some?
  {
    var search := new Search();
    first := FindDeadlock(search, [own]);
    OwnLockIsDeadlock(own);
    OneWaitAcyclic(other);
    AnswerSound([other], None);
    assert first.Some?;
    OwnLockReported(own, first.value);
    EdgeIntoLock(own, other, search.nodesInCycle);
    second := FindDeadlock(search, [other]);
  }

  lemma OwnLockIsDeadlock(w: Wait)
    requires IsWait(w) && w.holder.Same(w.waiter)
    ensures IsDeadlock([w], [w.waiter.Key(), w.lock.Key()])
  {
    KeyIffSame(w.holder, w.waiter);
    KeysDiffer(w.waiter, w.lock);
    var c := [w.waiter.Key(), w.lock.Key()];
    assert w in [w] && WaitEdge(w, c[0], c[1]) && WaitEdge(w, c[1], c[0]);
  }

  /** Any report on that wait names the lock. */
  lemma OwnLockReported(w: Wait, c: seq<string>)
    requires IsWait(w) && IsDeadlock([w], c)
    ensures w.lock.Key() in c
  {
    var a, b := c[|c| - 1], c[0];
    assert SomeWaitEdge([w], a, b);
    assert a in c && b in c;
  }

  lemma EdgeIntoLock(own: Wait, other: Wait, stale: seq<string>)
    requires IsWait(other) && other.lock.Same(own.lock) && own.lock.Key() in stale
    ensures !NoEdgeInto(EdgesOf(Searched([other])), stale)
  {
    KeyIffSame(other.lock, own.lock);
    OneWaitEdges(other);
    assert WaitEdge(other, other.waiter.Key(), other.lock.Key());
    assert Edge(EdgesOf(Searched([other])), other.waiter.Key(), other.lock.Key());
  }
}
