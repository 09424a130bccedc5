/**
  The worker pool `parallel_process` of buildscripts/clang_format.py, as
  interleaved atomic steps of its worker threads.

  `outcome[i]` is what the work function returns for item `i`.  The shared state
  is the work queue, the stop event and the result cell; `finished` records the
  items on which the work function has returned.
*/
module WorkerPool {
  import opened Counting

  datatype Pc =
    | Check                 // about to test the stop event
    | Get                   // about to take an item
    | Run(item: nat)        // inside the work function
    | Fail                  // the item failed: about to clear the result
    | Stop                  // about to set the event and leave
    | Done                  // the thread has ended

  datatype State = State(
    queue: seq<nat>,
    event: bool,
    result: bool,
    workers: seq<Pc>,
    finished: seq<nat>)

  function Upto(n: nat): (s: seq<nat>)
    ensures |s| == n && forall i :: 0 <= i < n ==> s[i] == i
  {
    seq(n, i => i)
  }

  /** All work is queued before the first worker starts. */
  ghost predicate Initial(outcome: seq<bool>, s: State) {
    && s.queue == Upto(|outcome|) && !s.event && s.result
    && |s.workers| >= 1 && (forall w :: 0 <= w < |s.workers| ==> s.workers[w] == Check)
    && s.finished == []
  }

  /** What worker `w` does next. */
  function Step(outcome: seq<bool>, s: State, w: nat): State
    requires w < |s.workers| && !s.workers[w].Done?
  {
    match s.workers[w]
    case Check => At(s, w, if s.event then Done else Get)
    case Get =>
      if s.queue == [] then At(s, w, Stop)
      else At(s, w, Run(s.queue[0])).(queue := s.queue[1..])
    case Run(item) =>
      var ok := item < |outcome| && outcome[item];
      At(s, w, if ok then Check else Fail).(finished := s.finished + [item])
    case Fail => At(s, w, Stop).(result := false)
    case Stop => At(s, w, Done).(event := true)
  }

  function At(s: State, w: nat, pc: Pc): State
    requires w < |s.workers|
  {
    s.(workers := s.workers[w := pc])
  }

  ghost predicate CanMove(s: State, w: nat) {
    w < |s.workers| && !s.workers[w].Done?
  }

  ghost predicate Next(outcome: seq<bool>, s: State, s': State) {
    exists w: nat :: CanMove(s, w) && s' == Step(outcome, s, w)
  }

  /** A run under any schedule. */
  ghost predicate IsRun(outcome: seq<bool>, run: seq<State>) {
    && run != [] && Initial(outcome, run[0])
    && forall i :: 0 <= i < |run| - 1 ==> Next(outcome, run[i], run[i + 1])
  }

  /** Every thread has been joined: the call returns `result`. */
  ghost predicate Returned(s: State) {
    forall w :: 0 <= w < |s.workers| ==> s.workers[w].Done?
  }

  // ----- The invariant

  /** How many workers are running an item. */
  function Holders(workers: seq<Pc>, item: nat): nat {
    if workers == [] then 0
    else Holders(workers[..|workers| - 1], item) + if workers[|workers| - 1] == Run(item) then 1 else 0
  }

  predicate Passed(outcome: seq<bool>, item: nat) {
    item < |outcome| && outcome[item]
  }

  /** Every item taken off the queue is finished or in the hands of one worker, just once. */
  ghost predicate TakenOnce(s: State, taken: int) {
    forall item: nat :: Times(s.finished, item) + Holders(s.workers, item) == if item < taken then 1 else 0
  }

  /** The queue holds the last items in order, and every other one was taken once. */
  ghost predicate Conserved(outcome: seq<bool>, s: State) {
    && |s.queue| <= |outcome|
    && (forall i :: 0 <= i < |s.queue| ==> s.queue[i] == |outcome| - |s.queue| + i)
    && TakenOnce(s, |outcome| - |s.queue|)
  }

  /** The result, the event and the failures seen so far agree. */
  ghost predicate Signalled(outcome: seq<bool>, s: State) {
    && (s.event ==> s.queue == [] || !s.result)
    && (!s.result ==> exists i :: i in s.finished && !Passed(outcome, i))
    && (forall w :: 0 <= w < |s.workers| ==>
          && (s.workers[w].Done? ==> s.event)
          && (s.workers[w].Stop? ==> s.queue == [] || !s.result)
          && (s.workers[w].Fail? ==> exists i :: i in s.finished && !Passed(outcome, i)))
    && ((exists i :: i in s.finished && !Passed(outcome, i)) ==>
          !s.result || exists w :: 0 <= w < |s.workers| && s.workers[w].Fail?)
  }

  /** Whoever set the event has ended. */
  ghost predicate Punctual(s: State) {
    s.event ==> exists w :: 0 <= w < |s.workers| && s.workers[w].Done?
  }

  ghost predicate Inv(outcome: seq<bool>, s: State) {
    Conserved(outcome, s) && Signalled(outcome, s) && Punctual(s) && |s.workers| >= 1
  }

  // ----- Every step keeps it

  lemma {:induction false} HoldersAt(workers: seq<Pc>, w: nat, pc: Pc, item: nat)
    requires w < |workers|
    ensures Holders(workers[w := pc], item) + (if workers[w] == Run(item) then 1 else 0) ==
            Holders(workers, item) + (if pc == Run(item) then 1 else 0)
    decreases |workers|
  {
    var last := |workers| - 1;
    if w == last {
      assert workers[w := pc][..last] == workers[..last];
    } else {
      HoldersAt(workers[..last], w, pc, item);
      assert workers[w := pc][..last] == workers[..last][w := pc];
    }
  }

  lemma {:induction false} NoHolders(workers: seq<Pc>, item: nat)
    requires forall w :: 0 <= w < |workers| ==> !workers[w].Run?
    ensures Holders(workers, item) == 0
  {
    if workers != [] { NoHolders(workers[..|workers| - 1], item); }
  }

  lemma InitialInv(outcome: seq<bool>, s: State)
    requires Initial(outcome, s)
    ensures Inv(outcome, s)
  {
    forall item: nat ensures Holders(s.workers, item) == 0 { NoHolders(s.workers, item); }
  }

  lemma StepConserved(outcome: seq<bool>, s: State, w: nat)
    requires Conserved(outcome, s) && CanMove(s, w)
    ensures Conserved(outcome, Step(outcome, s, w))
  {
    var s' := Step(outcome, s, w);
    forall item: nat
      ensures Times(s'.finished, item) + Holders(s'.workers, item) ==
              if item < |outcome| - |s'.queue| then 1 else 0
    {
      StepCount(outcome, s, w, item);
      assert Times(s.finished, item) + Holders(s.workers, item) == if item < |outcome| - |s.queue| then 1 else 0;
    }
  }

  lemma FinishCount(s: State, w: nat, item: nat, pc: Pc)
    requires w < |s.workers| && s.workers[w].Run? && !pc.Run?
    ensures Times(s.finished + [s.workers[w].item], item) + Holders(s.workers[w := pc], item) ==
            Times(s.finished, item) + Holders(s.workers, item)
  {
    HoldersAt(s.workers, w, pc, item);
    TimesLast(s.finished, s.workers[w].item, item);
  }

  /** A step changes the count of an item only by taking it off the queue. */
  lemma StepCount(outcome: seq<bool>, s: State, w: nat, item: nat)
    requires CanMove(s, w)
    ensures var s' := Step(outcome, s, w);
            Times(s'.finished, item) + Holders(s'.workers, item) ==
            Times(s.finished, item) + Holders(s.workers, item) +
            if s.workers[w].Get? && s.queue != [] && s.queue[0] == item then 1 else 0
  {
    var pc := Step(outcome, s, w).workers[w];
    if s.workers[w].Run? {
      FinishCount(s, w, item, pc);
    } else {
      HoldersAt(s.workers, w, pc, item);
    }
  }

  lemma StepSignalled(outcome: seq<bool>, s: State, w: nat)
    requires Signalled(outcome, s) && CanMove(s, w)
    ensures Signalled(outcome, Step(outcome, s, w))
  {
    var s' := Step(outcome, s, w);
    assert forall v :: 0 <= v < |s.workers| && v != w ==> s'.workers[v] == s.workers[v];
    if s.workers[w].Run? {
      var item := s.workers[w].item;
      assert forall i :: i in s'.finished <==> i in s.finished || i == item;
      if !Passed(outcome, item) { assert s'.workers[w].Fail?; }
    }
  }

  lemma StepPunctual(outcome: seq<bool>, s: State, w: nat)
    requires Punctual(s) && CanMove(s, w)
    ensures Punctual(Step(outcome, s, w))
  {
    var s' := Step(outcome, s, w);
    assert forall v :: 0 <= v < |s.workers| && v != w ==> s'.workers[v] == s.workers[v];
    if s.workers[w].Stop? { assert s'.workers[w].Done?; }
  }

  lemma StepInv(outcome: seq<bool>, s: State, w: nat)
    requires Inv(outcome, s) && CanMove(s, w)
    ensures Inv(outcome, Step(outcome, s, w))
  {
    StepConserved(outcome, s, w);
    StepSignalled(outcome, s, w);
    StepPunctual(outcome, s, w);
  }

  lemma NextInv(outcome: seq<bool>, s: State, s': State)
    requires Inv(outcome, s) && Next(outcome, s, s')
    ensures Inv(outcome, s') && |s'.workers| == |s.workers|
  {
    var w: nat :| CanMove(s, w) && s' == Step(outcome, s, w);
    StepInv(outcome, s, w);
  }

  lemma {:induction false} RunInv(outcome: seq<bool>, run: seq<State>, i: nat)
    requires IsRun(outcome, run) && i < |run|
    ensures Inv(outcome, run[i]) && |run[i].workers| == |run[0].workers|
  {
    if i == 0 {
      InitialInv(outcome, run[0]);
    } else {
      RunInv(outcome, run, i - 1);
      NextInv(outcome, run[i - 1], run[i]);
    }
  }

  // ----- What a call returns

  ghost predicate AllPass(outcome: seq<bool>) {
    forall i :: 0 <= i < |outcome| ==> outcome[i]
  }

  /** When nobody is running anything, exactly the items taken off the queue are finished, once each. */
  lemma FinishedOnce(outcome: seq<bool>, s: State, item: nat)
    requires Conserved(outcome, s) && Returned(s)
    ensures Times(s.finished, item) == if item < |outcome| - |s.queue| then 1 else 0
    ensures item in s.finished <==> item < |outcome| - |s.queue|
  {
    NoHolders(s.workers, item);
    TimesIn(s.finished, item);
    assert Times(s.finished, item) + Holders(s.workers, item) == if item < |outcome| - |s.queue| then 1 else 0;
  }

  lemma ResultCorrect(outcome: seq<bool>, s: State)
    requires Inv(outcome, s) && Returned(s)
    ensures s.event && (s.result <==> AllPass(outcome)) && (s.result ==> s.queue == [])
  {
    assert s.workers[0].Done?;
    forall i: nat ensures i in s.finished <==> i < |outcome| - |s.queue| { FinishedOnce(outcome, s, i); }
    if s.result {
      forall i | 0 <= i < |outcome| ensures outcome[i] {
        assert i in s.finished;
        assert Passed(outcome, i);
      }
    }
  }

  /**
    Under every schedule, once all workers have ended the event is set, the
    result says whether every item passed, and if so each item ran exactly once.
  */
  lemma ReturnedCorrect(outcome: seq<bool>, run: seq<State>)
    requires IsRun(outcome, run) && Returned(run[|run| - 1])
    ensures var s := run[|run| - 1];
            && s.event
            && (s.result <==> AllPass(outcome))
            && (s.result ==> forall i: nat :: Times(s.finished, i) == if i < |outcome| then 1 else 0)
  {
    var s := run[|run| - 1];
    RunInv(outcome, run, |run| - 1);
    ResultCorrect(outcome, s);
    forall i: nat ensures Times(s.finished, i) == if i < |outcome| - |s.queue| then 1 else 0 {
      FinishedOnce(outcome, s, i);
    }
  }

  /** No item is started twice, in any state of any run. */
  lemma NoItemTwice(outcome: seq<bool>, run: seq<State>, i: nat, item: nat)
    requires IsRun(outcome, run) && i < |run|
    ensures Times(run[i].finished, item) + Holders(run[i].workers, item) <= 1
  {
    RunInv(outcome, run, i);
    assert TakenOnce(run[i], |outcome| - |run[i].queue|);
  }

  // ----- Late starts

  /** How many workers have passed the test of the event and are about to take an item. */
  function Getting(workers: seq<Pc>): (n: nat)
    ensures n <= |workers|
  {
    if workers == [] then 0
    else Getting(workers[..|workers| - 1]) + if workers[|workers| - 1].Get? then 1 else 0
  }

  lemma {:induction false} GettingAt(workers: seq<Pc>, w: nat, pc: Pc)
    requires w < |workers|
    ensures Getting(workers[w := pc]) + (if workers[w].Get? then 1 else 0) ==
            Getting(workers) + (if pc.Get? then 1 else 0)
    decreases |workers|
  {
    var last := |workers| - 1;
    if w == last {
      assert workers[w := pc][..last] == workers[..last];
    } else {
      GettingAt(workers[..last], w, pc);
      assert workers[w := pc][..last] == workers[..last][w := pc];
    }
  }

  /** With the event set, an item leaves the queue only when one of those workers takes it. */
  lemma LateStep(outcome: seq<bool>, s: State, w: nat)
    requires CanMove(s, w) && s.event
    ensures var s' := Step(outcome, s, w);
            s'.event && |s.queue| - |s'.queue| <= Getting(s.workers) - Getting(s'.workers)
  {
    GettingAt(s.workers, w, Step(outcome, s, w).workers[w]);
  }

  lemma {:induction false} LateSteps(outcome: seq<bool>, run: seq<State>, i: nat, j: nat)
    requires IsRun(outcome, run) && i <= j < |run| && run[i].event
    ensures run[j].event
    ensures |run[i].queue| - |run[j].queue| <= Getting(run[i].workers) - Getting(run[j].workers)
    decreases j
  {
    if i < j {
      LateSteps(outcome, run, i, j - 1);
      assert Next(outcome, run[j - 1], run[j - 1 + 1]);
      var w: nat :| CanMove(run[j - 1], w) && run[j] == Step(outcome, run[j - 1], w);
      LateStep(outcome, run[j - 1], w);
    }
  }

  /** Once the event is set, fewer items are still taken off the queue than there are workers. */
  lemma FewLateStarts(outcome: seq<bool>, run: seq<State>, i: nat, j: nat)
    requires IsRun(outcome, run) && i <= j < |run| && run[i].event
    ensures |run[i].queue| - |run[j].queue| <= |run[0].workers| - 1
  {
    LateSteps(outcome, run, i, j);
    RunInv(outcome, run, i);
    var workers := run[i].workers;
    var w :| 0 <= w < |workers| && workers[w].Done?;
    GettingAt(workers, w, Get);
  }

  /** With the event set, nobody comes to take an item who was not about to. */
  lemma LateWorker(outcome: seq<bool>, s: State, v: nat, w: nat)
    requires CanMove(s, v) && s.event && w < |s.workers|
    ensures var p, q := s.workers[w], Step(outcome, s, v).workers[w];
            !p.Get? ==> !q.Get? && (q.Run? ==> q == p)
  {
  }

  /**
    A worker that is not just about to take an item when the event is set starts
    no item afterwards; in particular none that is then at the test of the event.
  */
  lemma {:induction false} NoLateStart(outcome: seq<bool>, run: seq<State>, i: nat, j: nat, w: nat)
    requires IsRun(outcome, run) && i <= j < |run| && run[i].event && w < |run[0].workers|
    ensures |run[i].workers| == |run[j].workers| == |run[0].workers|
    ensures var p, q := run[i].workers[w], run[j].workers[w];
            !p.Get? ==> !q.Get? && (q.Run? ==> q == p)
    decreases j
  {
    RunInv(outcome, run, i);
    if i < j {
      NoLateStart(outcome, run, i, j - 1, w);
      LateSteps(outcome, run, i, j - 1);
      assert Next(outcome, run[j - 1], run[j - 1 + 1]);
      var v: nat :| CanMove(run[j - 1], v) && run[j] == Step(outcome, run[j - 1], v);
      LateWorker(outcome, run[j - 1], v, w);
    }
  }

  /** So after the event is set no worker runs two different items, one of which it still has to take. */
  lemma OneLateItem(outcome: seq<bool>, run: seq<State>, i: nat, j: nat, k: nat, w: nat)
    requires IsRun(outcome, run) && i <= j <= k < |run| && run[i].event && w < |run[0].workers|
    ensures |run[j].workers| == |run[k].workers| == |run[0].workers|
    ensures run[j].workers[w].Run? && run[k].workers[w].Run? ==> run[j].workers[w] == run[k].workers[w]
  {
    LateSteps(outcome, run, i, j);
    NoLateStart(outcome, run, j, k, w);
  }

  // ----- Every run ends

  function Rank(pc: Pc): nat {
    match pc
    case Check => 5
    case Get => 4
    case Run(_) => 6
    case Fail => 2
    case Stop => 1
    case Done => 0
  }

  function Ranks(workers: seq<Pc>): nat {
    if workers == [] then 0
    else Ranks(workers[..|workers| - 1]) + Rank(workers[|workers| - 1])
  }

  function Measure(s: State): nat {
    3 * |s.queue| + Ranks(s.workers)
  }

  lemma {:induction false} RanksAt(workers: seq<Pc>, w: nat, pc: Pc)
    requires w < |workers|
    ensures Ranks(workers[w := pc]) + Rank(workers[w]) == Ranks(workers) + Rank(pc)
    decreases |workers|
  {
    var last := |workers| - 1;
    if w == last {
      assert workers[w := pc][..last] == workers[..last];
    } else {
      RanksAt(workers[..last], w, pc);
      assert workers[w := pc][..last] == workers[..last][w := pc];
    }
  }

  /** Every step of every worker makes the measure smaller. */
  lemma StepShrinks(outcome: seq<bool>, s: State, w: nat)
    requires CanMove(s, w)
    ensures Measure(Step(outcome, s, w)) < Measure(s)
  {
    RanksAt(s.workers, w, Step(outcome, s, w).workers[w]);
  }

  /** So no run is longer than the measure of its first state allows. */
  lemma {:induction false} RunsEnd(outcome: seq<bool>, run: seq<State>)
    requires IsRun(outcome, run)
    ensures Measure(run[|run| - 1]) + |run| - 1 <= Measure(run[0])
    ensures |run| <= 1 + Measure(run[0])
    decreases |run|
  {
    var last := |run| - 1;
    if last > 0 {
      RunsEnd(outcome, run[..last]);
      assert Next(outcome, run[last - 1], run[last]);
      var w: nat :| CanMove(run[last - 1], w) && run[last] == Step(outcome, run[last - 1], w);
      StepShrinks(outcome, run[last - 1], w);
    }
  }

  /** And a run that has not returned can always go on. */
  lemma NeverStuck(outcome: seq<bool>, run: seq<State>)
    requires IsRun(outcome, run) && !Returned(run[|run| - 1])
    ensures exists s' :: IsRun(outcome, run + [s'])
  {
    var s := run[|run| - 1];
    var w :| 0 <= w < |s.workers| && !s.workers[w].Done?;
    assert CanMove(s, w);
    var s' := Step(outcome, s, w);
    assert Next(outcome, s, s');
    var longer := run + [s'];
    forall i | 0 <= i < |longer| - 1 ensures Next(outcome, longer[i], longer[i + 1]) {
      if i < |run| - 1 { assert Next(outcome, run[i], run[i + 1]); }
    }
    assert IsRun(outcome, longer);
  }
}
