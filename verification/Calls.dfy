/** The calls of slave_poll on one slave, from beginning to end, as its history records them. */
module Calls {
  import opened Bytes
  import opened Clock
  import opened Polling
  import opened PollingRuns

  /** The queue is emptied. */
  predicate PurgeLead(c: Trace) {
    |c| >= 2 && c[0] == Begin && c[|c|-1] == Purged && forall k :: 0 < k < |c| - 1 ==> c[k].Drop?
  }

  /** The queue is emptied and the clock read. */
  predicate TickleLead(c: Trace) { |c| >= 3 && c[|c|-1].Tickle? && PurgeLead(c[..|c|-1]) }

  /** The clock is read if the last poll went unanswered, and the payload chosen. */
  predicate ChooseLead(c: Trace, retried: bool) {
    if retried then |c| == 3 && c[0] == Begin && c[1].Recheck? && c[2] == Choose else c == [Begin, Choose]
  }

  /** What comes before a transmission. */
  predicate SendLead(c: Trace, s: Slave, payload: bytes, sendmsg: bool) {
    if s.Offline() then TickleLead(c) && payload == [0x60] && !sendmsg
    else ChooseLead(c, s.retry > 0) && (s.retry > 0 ==> Due(c[1], s))
  }

  predicate Due(e: Event, s: Slave) {
    e.Recheck? && s.nextPoll.Some? && !Before(e.now, s.nextPoll.value)
  }

  /** A call that made an exchange: the lead, the transmission, the answer, and perhaps the pop. */
  predicate AnExchange(c: Trace) {
    |c| >= 4 &&
    var k := if c[|c|-1].Pop? then |c| - 3 else |c| - 2;
    && c[k].Transmit? && c[k+1].Answer?
    && (c[|c|-1].Pop? <==> c[k].sendmsg && c[k+1] == Answer(Accepted))
    && (c[|c|-1].Pop? ==> c[|c|-1] == Event.Pop(c[k].payload))
    && (ChooseLead(c[..k], true) || ChooseLead(c[..k], false) ||
        (TickleLead(c[..k]) && c[k].payload == [0x60] && !c[k].sendmsg))
  }

  /** A call at its end: none yet, too early in one branch or the other, or an exchange. */
  predicate Whole(c: Trace) {
    c == [] || TickleLead(c) || (|c| == 2 && c[0] == Begin && c[1].Recheck?) || AnExchange(c)
  }

  predicate Shape(c: Trace, s: Slave) {
    match s.place
    case Idle => Whole(c)
    case Purging => s.Offline() && |c| >= 1 && c[0] == Begin && forall k :: 0 < k < |c| ==> c[k].Drop?
    case Tickling => s.Offline() && PurgeLead(c)
    case Retrying => !s.Offline() && s.retry > 0 && c == [Begin]
    case Choosing =>
      && !s.Offline()
      && if s.retry > 0 then |c| == 2 && c[0] == Begin && Due(c[1], s) else c == [Begin]
    case Sending(p, b) => SendLead(c, s, p, b)
    case Awaiting(p, b) => |c| > 0 && c[|c|-1] == Transmit(s.txseq, p, b) && SendLead(c[..|c|-1], s, p, b)
    case Popping(p) =>
      && |c| >= 4 && c[|c|-1] == Answer(Accepted)
      && c[|c|-2].Transmit? && c[|c|-2].payload == p && c[|c|-2].sendmsg
      && (ChooseLead(c[..|c|-2], true) || ChooseLead(c[..|c|-2], false))
  }

  /** The call after one more step. */
  function CallThen(c: Trace, e: Event): Trace {
    if IsMqtt(e) then c else if e.Begin? then [e] else c + [e]
  }

  lemma CallIs(es: Trace, e: Event)
    ensures Call(es + [e]) == CallThen(Call(es), e)
  {
    assert (es + [e])[..|es|] == es;
  }

  lemma ShapeKeptByMqtt(c: Trace, s: Slave, e: Event)
    requires Shape(c, s) && s.retry >= 0 && Allowed(s, e) && IsMqtt(e)
    ensures Shape(CallThen(c, e), Next(s, e))
  {
  }

  lemma ShapeKeptBefore(c: Trace, s: Slave, e: Event)
    requires Shape(c, s) && s.retry >= 0 && Allowed(s, e)
    requires e.Begin? || e.Drop? || e.Purged? || e.Tickle? || e.Recheck? || e.Choose?
    ensures Shape(CallThen(c, e), Next(s, e))
  {
    assert (c + [e])[..|c|] == c;
  }

  lemma ShapeKeptByTransmit(c: Trace, s: Slave, e: Event)
    requires Shape(c, s) && Allowed(s, e) && e.Transmit?
    ensures Shape(CallThen(c, e), Next(s, e))
  {
    hide SendLead;
    assert (c + [e])[..|c|] == c;
    assert SendLead(c, s, e.payload, e.sendmsg);
    LeadStays(c, s, Next(s, e), e.payload, e.sendmsg);
  }

  /** The lead depends on the retry counter and the stored time alone. */
  lemma LeadStays(c: Trace, s: Slave, t: Slave, payload: bytes, sendmsg: bool)
    requires SendLead(c, s, payload, sendmsg) && t.retry == s.retry && t.nextPoll == s.nextPoll
    ensures SendLead(c, t, payload, sendmsg)
  {
  }

  lemma ShapeKeptByAnswer(c: Trace, s: Slave, e: Event)
    requires Shape(c, s) && Allowed(s, e) && e.Answer?
    ensures Shape(CallThen(c, e), Next(s, e))
  {
    hide ChooseLead, TickleLead, Due;
    var g := c + [e];
    assert g[..|g|-2] == c[..|c|-1];
    LeadIsSome(c[..|c|-1], s, s.place.payload, s.place.sendmsg);
  }

  lemma LeadIsSome(c: Trace, s: Slave, payload: bytes, sendmsg: bool)
    requires SendLead(c, s, payload, sendmsg)
    ensures |c| >= 2
    ensures ChooseLead(c, true) || ChooseLead(c, false) || (TickleLead(c) && payload == [0x60] && !sendmsg)
  {
  }

  lemma ShapeKeptByPop(c: Trace, s: Slave, e: Event)
    requires Shape(c, s) && Allowed(s, e) && e.Pop? && e.msg == s.place.payload
    ensures Shape(CallThen(c, e), Next(s, e))
  {
    hide ChooseLead, TickleLead, Due;
    var g := c + [e];
    assert g[..|g|-3] == c[..|c|-2];
  }

  lemma PopsWhatWasSent(es: Trace, e: Event)
    requires Run(es).Some? && Allowed(Run(es).value, e) && e.Pop?
    ensures Run(es).value.place.Popping? && e.msg == Run(es).value.place.payload
  {
    HeadIsSent(es);
  }

  lemma {:induction false} CallsHaveShape(es: Trace)
    requires Run(es).Some?
    ensures Shape(Call(es), Run(es).value)
    decreases |es|
  {
    if es != [] {
      hide Shape, Next, Call, Run, Allowed, CallThen, EverAccepted;
      LastStep(es);
      var before, e := es[..|es|-1], es[|es|-1];
      CallsHaveShape(before);
      RetryCounts(before);
      CallIs(before, e);
      if IsMqtt(e) {
        ShapeKeptByMqtt(Call(before), Run(before).value, e);
      } else if e.Transmit? {
        ShapeKeptByTransmit(Call(before), Run(before).value, e);
      } else if e.Answer? {
        ShapeKeptByAnswer(Call(before), Run(before).value, e);
      } else if e.Pop? {
        PopsWhatWasSent(before, e);
        ShapeKeptByPop(Call(before), Run(before).value, e);
      } else {
        ShapeKeptBefore(Call(before), Run(before).value, e);
      }
    } else {
      assert Run(es) == Some(Birth());
    }
  }

  /** Between calls, the last one was whole. */
  lemma CallsAreWhole(es: Trace)
    requires Run(es).Some? && Run(es).value.place == Idle
    ensures Whole(Call(es))
  {
    CallsHaveShape(es);
  }

  /**
    What goes before a transmission, by the replies so far: an offline slave gets a plain poll, its
    queue emptied and the clock read; one whose last polls failed has the clock read and ten
    milliseconds gone; any other is sent the payload chosen at once.
   */
  lemma SentInTurn(es: Trace, i: nat)
    requires Run(es).Some? && ProperClock(es) && i < |es| && es[i].Transmit?
    ensures var c, fails := Call(es[..i]), FailsSinceAccept(es[..i]);
            if !EverAccepted(es[..i]) || fails >= 10 then
              TickleLead(c) && es[i].payload == [0x60] && !es[i].sendmsg
            else if fails > 0 then
              && |c| == 3 && c[0] == Begin && c[1].Recheck? && c[2] == Choose
              && LastFailure(es[..i]).Some?
              && Nanos(c[1].now) >= Nanos(LastFailure(es[..i]).value) + 10_000_000
            else
              c == [Begin, Choose]
  {
    StepAt(es, i);
    var before := es[..i];
    CallsHaveShape(before);
    RetryCounts(before);
    OfflineMeans(before);
    RetryTimes(before);
    var s, c := Run(before).value, Call(before);
    hide Run, Call, EverAccepted, FailsSinceAccept, LastFailure, Nanos, Normal, TickleLead;
    if !s.Offline() && s.retry > 0 {
      assert forall e :: e in before ==> e in es;
      CallTimesAreProper(before, 1);
      BeforeIsOrder(c[1].now, s.nextPoll.value);
    }
  }

  lemma {:induction false} CallIsPartOf(es: Trace, e: Event)
    requires e in Call(es)
    ensures e in es
  {
    if es != [] && e != es[|es|-1] {
      CallIsPartOf(es[..|es|-1], e);
    }
  }

  lemma CallTimesAreProper(es: Trace, k: nat)
    requires ProperClock(es) && k < |Call(es)| && Call(es)[k].Recheck?
    ensures Normal(Call(es)[k].now)
  {
    CallIsPartOf(es, Call(es)[k]);
  }

  /** The head of the queue is chosen if there is one; a purge is over when there is none. */
  lemma WhatIsChosen(es: Trace, i: nat)
    requires Run(es).Some? && i < |es| && (es[i] == Choose || es[i] == Purged)
    ensures Run(es[..i]).Some? && Run(es[..i+1]).Some?
    ensures var q := Run(es[..i]).value.queue;
            if es[i] == Purged then q == []
            else Run(es[..i+1]).value.place == if q == [] then Sending([0x60], false) else Sending(q[0], true)
  {
    StepAt(es, i);
  }
}
