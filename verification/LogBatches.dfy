/**
  The log batcher `LogAppender` of buildscripts/buildlogger.py and the retry
  loop that empties it.  Clock readings and the answers of the upload callback
  are inputs; `delivered` records the lines of the uploads that were accepted.
*/
module LogBatches {

  /** A line with the time it was logged. */
  datatype Entry = Entry(time: real, line: string)

  datatype State = State(buf: seq<Entry>, retrybuf: seq<Entry>, delivered: seq<Entry>, lastSent: real)

  datatype Limits = Limits(lines: int, seconds: real)

  function Pending(s: State): nat {
    |s.buf| + |s.retrybuf|
  }

  /** An upload sends the new lines before the ones to be retried. */
  function AfterSubmit(s: State, now: real, accepted: bool): State {
    if Pending(s) == 0 then s
    else if accepted then State([], [], s.delivered + (s.buf + s.retrybuf), now)
    else State([], s.retrybuf + s.buf, s.delivered, now)
  }

  /** The three clock readings of a call: for the stamp, for the delay and for the upload. */
  datatype Clock = Clock(stamp: real, check: real, sent: real)

  predicate Due(s: State, limits: Limits, now: real) {
    |s.buf| >= limits.lines || now - s.lastSent >= limits.seconds
  }

  function AfterCall(s: State, limits: Limits, line: string, clock: Clock, accepted: bool): State {
    var logged := s.(buf := s.buf + [Entry(clock.stamp, line)]);
    if Due(logged, limits, clock.check) then AfterSubmit(logged, clock.sent, accepted) else logged
  }

  // ----- The code

  class LogAppender {
    const limits: Limits
    var buf: seq<Entry>
    var retrybuf: seq<Entry>
    var lastSent: real
    ghost var delivered: seq<Entry>

    constructor (limits: Limits, now: real)
      ensures this.limits == limits && Value() == State([], [], [], now)
    {
      this.limits := limits;
      buf, retrybuf, lastSent, delivered := [], [], now, [];
    }

    ghost function Value(): State
      reads this
    {
      State(buf, retrybuf, delivered, lastSent)
    }

    method Submit(now: real, accepted: bool) returns (ok: bool)
      modifies this
      ensures Value() == AfterSubmit(old(Value()), now, accepted)
      ensures ok <==> Pending(Value()) == 0
    {
      if |buf| + |retrybuf| == 0 {
        return true;
      }
      var batch := buf + retrybuf;
      lastSent := now;
      if accepted {
        delivered := delivered + batch;
        buf, retrybuf := [], [];
        return true;
      } else {
        retrybuf := retrybuf + buf;
        buf := [];
        return false;
      }
    }

    method Call(line: string, clock: Clock, accepted: bool)
      modifies this
      ensures Value() == AfterCall(old(Value()), limits, line, clock, accepted)
      ensures limits.lines > 0 ==> |buf| < limits.lines
    {
      buf := buf + [Entry(clock.stamp, line)];
      var delay := clock.check - lastSent;
      if |buf| >= limits.lines || delay >= limits.seconds {
        var ok := Submit(clock.sent, accepted);
      }
    }

    /**
      The final loop: one try and up to five retries.  `accepted[i]` is the
      answer to try `i`.
    */
    method Flush(now: real, accepted: seq<bool>) returns (ok: bool)
      requires |accepted| >= 6
      modifies this
      ensures ok <==> old(Pending(Value())) == 0 || exists i :: 0 <= i < 6 && accepted[i]
      ensures ok ==> buf == [] && retrybuf == []
      ensures delivered == old(delivered) +
              (if !ok then [] else if accepted[0] then old(buf) + old(retrybuf) else old(retrybuf) + old(buf))
      ensures !ok ==> buf == [] && retrybuf == old(retrybuf) + old(buf)
    {
      var tries := 5;
      ok := Submit(now, accepted[0]);
      while !ok && tries > 0
        invariant 0 <= tries <= 5
        invariant ok <==> old(Pending(Value())) == 0 || exists i :: 0 <= i < 6 - tries && accepted[i]
        invariant ok ==> buf == [] && retrybuf == []
        invariant delivered == old(delivered) +
                  (if !ok then [] else if accepted[0] then old(buf) + old(retrybuf) else old(retrybuf) + old(buf))
        invariant !ok ==> buf == [] && retrybuf == old(retrybuf) + old(buf)
        decreases tries, !ok
      {
        tries := tries - 1;
        assert retrybuf == buf + retrybuf == retrybuf + buf;
        ok := Submit(now, accepted[5 - tries]);
      }
    }
  }

  // ----- Over every history of calls and uploads

  datatype Event = Logged(text: string, clock: Clock, answer: bool) | Sent(now: real, answer: bool)

  function After(limits: Limits, start: real, events: seq<Event>): State {
    if events == [] then State([], [], [], start)
    else
      var s := After(limits, start, events[..|events| - 1]);
      match events[|events| - 1]
      case Logged(text, clock, answer) => AfterCall(s, limits, text, clock, answer)
      case Sent(now, answer) => AfterSubmit(s, now, answer)
  }

  /** Everything logged, in order. */
  function Log(events: seq<Event>): seq<Entry> {
    if events == [] then []
    else
      var e := events[|events| - 1];
      Log(events[..|events| - 1]) + if e.Logged? then [Entry(e.clock.stamp, e.text)] else []
  }

  function Parts(s: State): multiset<Entry> {
    multiset(s.delivered) + multiset(s.retrybuf) + multiset(s.buf)
  }

  lemma SubmitConserves(s: State, now: real, accepted: bool)
    ensures Parts(AfterSubmit(s, now, accepted)) == Parts(s)
  {
  }

  lemma CallConserves(s: State, limits: Limits, line: string, clock: Clock, accepted: bool)
    ensures Parts(AfterCall(s, limits, line, clock, accepted)) == Parts(s) + multiset{Entry(clock.stamp, line)}
  {
    var logged := s.(buf := s.buf + [Entry(clock.stamp, line)]);
    SubmitConserves(logged, clock.sent, accepted);
  }

  /** Whatever the uploads answered, every line logged is delivered or pending, exactly once. */
  lemma {:induction false} NothingLost(limits: Limits, start: real, events: seq<Event>)
    ensures Parts(After(limits, start, events)) == multiset(Log(events))
  {
    if events != [] {
      var front, e := events[..|events| - 1], events[|events| - 1];
      NothingLost(limits, start, front);
      var s := After(limits, start, front);
      match e
      case Logged(text, clock, answer) => CallConserves(s, limits, text, clock, answer);
      case Sent(now, answer) => SubmitConserves(s, now, answer);
    }
  }

  /** Whether an event makes an upload in state `s`. */
  predicate Uploads(limits: Limits, s: State, e: Event) {
    match e
    case Logged(text, clock, _) => Due(s.(buf := s.buf + [Entry(clock.stamp, text)]), limits, clock.check)
    case Sent(_, _) => Pending(s) > 0
  }

  /** Every upload that was made was accepted. */
  predicate NoneFailed(limits: Limits, start: real, events: seq<Event>) {
    events == [] ||
    var front, e := events[..|events| - 1], events[|events| - 1];
    NoneFailed(limits, start, front) && (Uploads(limits, After(limits, start, front), e) ==> e.answer)
  }

  /** Without a failed upload the lines delivered are the first ones logged, in order. */
  lemma {:induction false} OrderKept(limits: Limits, start: real, events: seq<Event>)
    requires NoneFailed(limits, start, events)
    ensures var s := After(limits, start, events);
            s.retrybuf == [] && s.delivered + s.buf == Log(events)
  {
    if events != [] {
      OrderKept(limits, start, events[..|events| - 1]);
    }
  }

  // ----- When the order is kept

  /** The state in which an event may upload: a call has added its line by then. */
  function BeforeUpload(s: State, e: Event): State {
    match e
    case Logged(text, clock, _) => s.(buf := s.buf + [Entry(clock.stamp, text)])
    case Sent(_, _) => s
  }

  /** At every accepted upload the lines to be retried and the new ones commute. */
  ghost predicate Orderly(limits: Limits, start: real, events: seq<Event>) {
    events == [] ||
    var front, e := events[..|events| - 1], events[|events| - 1];
    var s := After(limits, start, front);
    var b := BeforeUpload(s, e);
    && Orderly(limits, start, front)
    && (Uploads(limits, s, e) && e.answer ==> b.buf + b.retrybuf == b.retrybuf + b.buf)
  }

  /** At every accepted upload there are only new lines or only lines to be retried. */
  ghost predicate NeverMixed(limits: Limits, start: real, events: seq<Event>) {
    events == [] ||
    var front, e := events[..|events| - 1], events[|events| - 1];
    var s := After(limits, start, front);
    var b := BeforeUpload(s, e);
    && NeverMixed(limits, start, front)
    && (Uploads(limits, s, e) && e.answer ==> b.buf == [] || b.retrybuf == [])
  }

  /** `s` splits `log`: what is delivered, in some order, and then what is pending, in log order. */
  ghost predicate Splits(s: State, log: seq<Entry>) {
    |s.delivered| <= |log| && log[|s.delivered|..] == s.retrybuf + s.buf
  }

  ghost predicate DeliveredInOrder(s: State, log: seq<Entry>)
    requires |s.delivered| <= |log|
  {
    s.delivered == log[..|s.delivered|]
  }

  lemma AddSplits(s: State, log: seq<Entry>, x: Entry)
    requires Splits(s, log)
    ensures Splits(s.(buf := s.buf + [x]), log + [x])
    ensures DeliveredInOrder(s.(buf := s.buf + [x]), log + [x]) <==> DeliveredInOrder(s, log)
  {
    var d := |s.delivered|;
    assert (log + [x])[d..] == log[d..] + [x] && (log + [x])[..d] == log[..d];
    assert s.retrybuf + (s.buf + [x]) == s.retrybuf + s.buf + [x];
  }

  lemma SubmitSplits(s: State, log: seq<Entry>, now: real, accepted: bool)
    requires Splits(s, log)
    ensures Splits(AfterSubmit(s, now, accepted), log)
    ensures DeliveredInOrder(AfterSubmit(s, now, accepted), log) <==>
            DeliveredInOrder(s, log) && (accepted ==> s.buf + s.retrybuf == s.retrybuf + s.buf)
  {
    var d := |s.delivered|;
    assert log == log[..d] + log[d..];
    if Pending(s) > 0 && accepted {
      var sent := s.delivered + (s.buf + s.retrybuf);
      assert |sent| == |log| && log[|sent|..] == [];
      assert sent[..d] == s.delivered && sent[d..] == s.buf + s.retrybuf && log[..|sent|] == log;
    } else {
      assert s.retrybuf + s.buf + [] == s.retrybuf + s.buf;
    }
  }

  /**
    Over every history: what is pending is the rest of the log, in order, and what
    was delivered is the first part of the log, in order, exactly when the
    history is orderly.
  */
  lemma {:induction false} OrderIffOrderly(limits: Limits, start: real, events: seq<Event>)
    ensures Splits(After(limits, start, events), Log(events))
    ensures DeliveredInOrder(After(limits, start, events), Log(events)) <==> Orderly(limits, start, events)
  {
    if events != [] {
      var front, e := events[..|events| - 1], events[|events| - 1];
      OrderIffOrderly(limits, start, front);
      var s := After(limits, start, front);
      match e
      case Logged(text, clock, answer) =>
        var x := Entry(clock.stamp, text);
        AddSplits(s, Log(front), x);
        SubmitSplits(s.(buf := s.buf + [x]), Log(front) + [x], clock.sent, answer);
      case Sent(now, answer) =>
        assert Log(events) == Log(front);
        SubmitSplits(s, Log(front), now, answer);
    }
  }

  ghost predicate AllDiffer(log: seq<Entry>) {
    forall i, j :: 0 <= i < j < |log| ==> log[i] != log[j]
  }

  /** Buffers of entries that differ commute only when one of them is empty. */
  lemma CommuteIffUnmixed(retry: seq<Entry>, buf: seq<Entry>)
    requires AllDiffer(retry + buf)
    ensures buf + retry == retry + buf <==> buf == [] || retry == []
  {
    if buf != [] && retry != [] {
      assert (retry + buf)[0] == retry[0] && (retry + buf)[|retry|] == buf[0];
      assert (buf + retry)[0] == buf[0];
    }
  }

  lemma {:induction false} OrderlyIffNeverMixed(limits: Limits, start: real, events: seq<Event>)
    requires AllDiffer(Log(events))
    ensures Orderly(limits, start, events) <==> NeverMixed(limits, start, events)
  {
    if events != [] {
      var front, e := events[..|events| - 1], events[|events| - 1];
      assert Log(front) <= Log(events);
      OrderlyIffNeverMixed(limits, start, front);
      OrderIffOrderly(limits, start, front);
      var s := After(limits, start, front);
      var b := BeforeUpload(s, e);
      if e.Logged? { AddSplits(s, Log(front), Entry(e.clock.stamp, e.text)); }
      assert Splits(b, Log(events));
      assert AllDiffer(b.retrybuf + b.buf) by {
        var d := |b.delivered|;
        assert forall i :: 0 <= i < |b.retrybuf + b.buf| ==> (b.retrybuf + b.buf)[i] == Log(events)[d + i];
      }
      CommuteIffUnmixed(b.retrybuf, b.buf);
    }
  }

  /** When all lines logged differ: delivered in log order exactly when no accepted upload mixes the two buffers. */
  lemma OrderIffNeverMixed(limits: Limits, start: real, events: seq<Event>)
    requires AllDiffer(Log(events))
    ensures |After(limits, start, events).delivered| <= |Log(events)|
    ensures DeliveredInOrder(After(limits, start, events), Log(events)) <==> NeverMixed(limits, start, events)
  {
    OrderIffOrderly(limits, start, events);
    OrderlyIffNeverMixed(limits, start, events);
  }

  /** A line, a failed upload, another line and an accepted upload: the second line is delivered first. */
  lemma RetryMisorders(limits: Limits, a: string, b: string)
    requires limits.lines > 1 && limits.seconds > 0.0 && a != b
    ensures var c := Clock(0.0, 0.0, 0.0);
            var events := [Logged(a, c, false), Sent(0.0, false), Logged(b, c, false), Sent(0.0, true)];
            && Log(events) == [Entry(0.0, a), Entry(0.0, b)]
            && After(limits, 0.0, events).delivered == [Entry(0.0, b), Entry(0.0, a)]
            && !NeverMixed(limits, 0.0, events)
  {
    var c, x, y := Clock(0.0, 0.0, 0.0), Entry(0.0, a), Entry(0.0, b);
    var e1 := [Logged(a, c, false)];
    var e2 := e1 + [Sent(0.0, false)];
    var e3 := e2 + [Logged(b, c, false)];
    var e4 := e3 + [Sent(0.0, true)];
    assert e1[..0] == [] && e2[..1] == e1 && e3[..2] == e2 && e4[..3] == e3;
    assert After(limits, 0.0, e1) == State([x], [], [], 0.0);
    assert After(limits, 0.0, e2) == State([], [x], [], 0.0);
    assert After(limits, 0.0, e3) == State([y], [x], [], 0.0);
    assert After(limits, 0.0, e4).delivered == [y, x];
    assert Log(e1) == [x] && Log(e2) == [x] && Log(e3) == [x, y] && Log(e4) == [x, y];
    assert e4 == [Logged(a, c, false), Sent(0.0, false), Logged(b, c, false), Sent(0.0, true)];
  }

  // ----- When uploads are made

  /** The time of the last upload, or the start: an upload leaves no new lines. */
  function LastTry(limits: Limits, start: real, events: seq<Event>): real {
    if events == [] then start
    else
      var front := events[..|events| - 1];
      match events[|events| - 1]
      case Sent(now, _) => if Pending(After(limits, start, front)) > 0 then now else LastTry(limits, start, front)
      case Logged(_, clock, _) =>
        if After(limits, start, events).buf == [] then clock.sent else LastTry(limits, start, front)
  }

  lemma {:induction false} LastSentIs(limits: Limits, start: real, events: seq<Event>)
    ensures After(limits, start, events).lastSent == LastTry(limits, start, events)
  {
    if events != [] { LastSentIs(limits, start, events[..|events| - 1]); }
  }

  /**
    Over every history: a call uploads exactly when its line makes a full batch
    or the last upload is too long ago, and otherwise only keeps the line.
  */
  lemma UploadsWhenDue(limits: Limits, start: real, events: seq<Event>, text: string, clock: Clock, answer: bool)
    ensures var s, s' := After(limits, start, events), After(limits, start, events + [Logged(text, clock, answer)]);
            if |s.buf| + 1 >= limits.lines || clock.check - LastTry(limits, start, events) >= limits.seconds
            then s'.buf == []
            else s' == s.(buf := s.buf + [Entry(clock.stamp, text)])
  {
    LastSentIs(limits, start, events);
    assert (events + [Logged(text, clock, answer)])[..|events|] == events;
  }

  // ----- Bound

  /** With a positive line limit the new lines never reach it. */
  lemma BufferBounded(limits: Limits, start: real, events: seq<Event>)
    requires limits.lines > 0
    ensures |After(limits, start, events).buf| < limits.lines
  {
  }
}
