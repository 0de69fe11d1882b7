/** What every run of the polling machine keeps, whatever the MQTT thread and the line do. */
module PollingRuns {
  import opened Bytes
  import opened Clock
  import opened Polling

  // ---------------------------------------------------------------- the queue

  /** Everything ever pushed, in order. */
  function Pushed(es: Trace): seq<bytes> {
    if es == [] then []
    else
      var e := es[|es|-1];
      Pushed(es[..|es|-1]) + if e.Push? then [e.msg] else []
  }

  /** Everything ever taken off the queue, in order. */
  function Removed(es: Trace): seq<bytes> {
    if es == [] then []
    else
      var e := es[|es|-1];
      Removed(es[..|es|-1]) + if e.Drop? || e.Pop? then [e.msg] else []
  }

  lemma Regrouped<T>(a: seq<T>, b: seq<T>, c: seq<T>)
    ensures a + (b + c) == (a + b) + c
  {
  }

  /** Nothing is lost, duplicated or reordered: what went in is what came out and what is left. */
  lemma {:induction false} QueueConserved(es: Trace)
    requires Run(es).Some?
    ensures Pushed(es) == Removed(es) + Run(es).value.queue
    decreases |es|
  {
    if es != [] {
      hide Run, Next, Allowed;
      LastStep(es);
      var before, e := es[..|es|-1], es[|es|-1];
      QueueConserved(before);
      NextQueue(Run(before).value, e);
      var t := Run(es).value.queue;
      if e.Push? {
        Regrouped(Removed(before), Run(before).value.queue, [e.msg]);
      } else if e.Drop? || e.Pop? {
        Regrouped(Removed(before), [e.msg], t);
      }
    } else {
      assert Run(es) == Some(Birth());
    }
  }

  /** What the bus thread has done in the current call of slave_poll. */
  function Call(es: Trace): Trace {
    if es == [] then []
    else
      var e := es[|es|-1];
      if IsMqtt(e) then Call(es[..|es|-1])
      else if e.Begin? then [e]
      else Call(es[..|es|-1]) + [e]
  }

  lemma CallGrows(es: Trace, e: Event)
    requires !IsMqtt(e) && !e.Begin?
    ensures Call(es + [e]) == Call(es) + [e]
  {
    assert (es + [e])[..|es|] == es;
  }

  predicate EndsWith(c: Trace, a: Event) { c != [] && c[|c|-1] == a }

  /** How the place in slave_poll records the call and the head of the queue. */
  ghost predicate PlaceInv(es: Trace, s: Slave) {
    match s.place
    case Sending(p, b) => if b then s.queue != [] && s.queue[0] == p && !s.Offline() else p == POLL
    case Awaiting(p, b) =>
      && EndsWith(Call(es), Transmit(s.txseq, p, b))
      && if b then s.queue != [] && s.queue[0] == p && !s.Offline() else p == POLL
    case Popping(p) =>
      && s.queue != [] && s.queue[0] == p
      && EndsWith(Call(es), Answer(Accepted))
      && exists q: nat :: EndsWith(Call(es)[..|Call(es)|-1], Transmit(q, p, true))
    case Purging => s.Offline()
    case Choosing => !s.Offline()
    case Retrying => !s.Offline() && s.retry > 0
    case _ => true
  }

  lemma PlaceKeptByMqtt(es: Trace, s: Slave, e: Event)
    requires PlaceInv(es, s) && Allowed(s, e) && IsMqtt(e)
    ensures PlaceInv(es + [e], Next(s, e))
  {
    assert (es + [e])[..|es|] == es;
    assert Call(es + [e]) == Call(es);
  }

  lemma PlaceKeptByBus(es: Trace, s: Slave, e: Event)
    requires PlaceInv(es, s) && Allowed(s, e) && !IsMqtt(e)
    ensures PlaceInv(es + [e], Next(s, e))
  {
    assert (es + [e])[..|es|] == es;
    assert !e.Begin? ==> Call(es + [e])[..|Call(es)|] == Call(es);
  }

  lemma {:induction false} PlaceHolds(es: Trace)
    requires Run(es).Some?
    ensures PlaceInv(es, Run(es).value)
    decreases |es|
  {
    if es != [] {
      hide PlaceInv, Next, Call, Run, Allowed;
      LastStep(es);
      var before, e := es[..|es|-1], es[|es|-1];
      PlaceHolds(before);
      if IsMqtt(e) {
        PlaceKeptByMqtt(before, Run(before).value, e);
      } else {
        PlaceKeptByBus(before, Run(before).value, e);
      }
    }
  }

  /** What is about to be popped is still at the head of the queue. */
  lemma HeadIsSent(es: Trace)
    requires Run(es).Some? && Run(es).value.place.Popping?
    ensures var s := Run(es).value; s.queue != [] && s.queue[0] == s.place.payload
  {
    PlaceHolds(es);
  }

  /**
    Each removal is either a purge while the slave is offline, or the pop of precisely the bytes
    transmitted in that same call, which an accepted reply has just answered.
   */
  lemma RemovalsAreEarned(es: Trace, i: nat)
    requires Run(es).Some? && i < |es|
    ensures es[i].Drop? ==> Run(es[..i]).Some? && Run(es[..i]).value.Offline()
    ensures es[i].Pop? ==>
              var c := Call(es[..i]);
              && EndsWith(c, Answer(Accepted))
              && exists q: nat :: EndsWith(c[..|c|-1], Transmit(q, es[i].msg, true))
  {
    StepAt(es, i);
    PlaceHolds(es[..i]);
  }

  // ---------------------------------------------------------------- retries

  predicate EverAccepted(es: Trace) { Answer(Accepted) in es }

  /** Failed reads since the last accepted reply. */
  function FailsSinceAccept(es: Trace): nat {
    if es == [] then 0
    else
      match es[|es|-1]
      case Answer(Accepted) => 0
      case Answer(Failed(_)) => FailsSinceAccept(es[..|es|-1]) + 1
      case _ => FailsSinceAccept(es[..|es|-1])
  }

  /** The retry counter is a function of the replies alone. */
  lemma {:induction false} RetryCounts(es: Trace)
    requires Run(es).Some?
    ensures Run(es).value.retry ==
            if EverAccepted(es) then Min(10, FailsSinceAccept(es)) else 11
    decreases |es|
  {
    if es != [] {
      hide Run, Next, Allowed;
      LastStep(es);
      var before, e := es[..|es|-1], es[|es|-1];
      RetryCounts(before);
      NextRetry(Run(before).value, e);
    }
  }

  /** A slave is offline until first accepted, and then after ten failures on end. */
  lemma OfflineMeans(es: Trace)
    requires Run(es).Some?
    ensures Run(es).value.Offline() <==> !EverAccepted(es) || FailsSinceAccept(es) >= 10
  {
    RetryCounts(es);
  }

  // ---------------------------------------------------------------- published statuses

  ghost predicate NoControls(es: Trace) { forall e :: e in es ==> !e.Control? }

  /** The nth of OFFLINE, ONLINE, OFFLINE, ... */
  function NthStatus(n: nat): Status { if n % 2 == 0 then OFFLINE else ONLINE }

  /** OFFLINE and ONLINE in turn, the last one telling the truth. */
  ghost predicate TruthfullyAlternating(s: Slave) {
    && s.enabled && s.statuses != []
    && (forall i :: 0 <= i < |s.statuses| ==> s.statuses[i] == NthStatus(i))
    && (s.Offline() <==> s.statuses[|s.statuses|-1] == OFFLINE)
  }

  lemma AlternationKept(s: Slave, e: Event)
    requires TruthfullyAlternating(s) && Allowed(s, e) && !e.Control?
    ensures TruthfullyAlternating(Next(s, e))
  {
    hide Next, Allowed;
    NextStatuses(s, e);
    var n := |s.statuses|;
    assert s.statuses[n-1] == NthStatus(n - 1);
    assert NthStatus(n - 1) == OFFLINE <==> NthStatus(n) == ONLINE;
  }

  /** Without control messages OFFLINE and ONLINE alternate, and the last one is the truth. */
  lemma {:induction false} StatusesAlternate(es: Trace)
    requires Run(es).Some? && NoControls(es)
    ensures TruthfullyAlternating(Run(es).value)
    decreases |es|
  {
    if es != [] {
      hide Run, Next, Allowed, TruthfullyAlternating;
      LastStep(es);
      StatusesAlternate(es[..|es|-1]);
      AlternationKept(Run(es[..|es|-1]).value, es[|es|-1]);
    } else {
      assert Run(es) == Some(Birth());
    }
  }

  /** The last status published is what the fields say. */
  predicate Truthful(s: Slave) {
    s.statuses != [] &&
    s.statuses[|s.statuses|-1] == if !s.enabled then DISABLED else if s.Offline() then OFFLINE else ONLINE
  }

  /**
    A control message publishes something untrue exactly when it is an unknown command to an
    enabled slave or ENABLE to an offline one.
   */
  predicate Misleads(s: Slave, cmd: Command) {
    match cmd
    case Unknown => s.enabled
    case Enable => s.Offline()
    case Disable => false
  }

  /** The last message that could set the record straight, or wrong, set it wrong. */
  function Misled(es: Trace): bool
    requires Run(es).Some?
  {
    if es == [] then false
    else
      var before, e := es[..|es|-1], es[|es|-1];
      LastStep(es);
      var s, t := Run(before).value, Run(es).value;
      if e.Control? then Misleads(s, e.cmd)
      else s.Offline() == t.Offline() && Misled(before)
  }

  lemma TruthStep(s: Slave, e: Event)
    requires Allowed(s, e) && s.statuses != []
    ensures var t := Next(s, e);
            && t.statuses != []
            && Truthful(t) == if e.Control? then !Misleads(s, e.cmd) else s.Offline() != t.Offline() || Truthful(s)
  {
    if !e.Control? {
      hide Next, Allowed;
      NextStatuses(s, e);
    }
  }

  /**
    With control messages of any kind in the run: the last status published is true if and only if
    neither an unknown command to an enabled slave nor ENABLE to an offline one has come since the
    last other control message or change of the offline state.
   */
  lemma {:induction false} TrueUnlessMisled(es: Trace)
    requires Run(es).Some?
    ensures Run(es).value.statuses != [] && (Truthful(Run(es).value) <==> !Misled(es))
    decreases |es|
  {
    if es != [] {
      hide Run, Next, Allowed, Truthful, Misleads;
      LastStep(es);
      var before, e := es[..|es|-1], es[|es|-1];
      TrueUnlessMisled(before);
      TruthStep(Run(before).value, e);
    } else {
      assert Run(es) == Some(Birth());
    }
  }

  /** Both happen: right after birth, to a slave that is offline and stays so. */
  lemma ControlsMislead()
    ensures forall cmd :: cmd == Unknown || cmd == Enable ==>
              var es := [Control(cmd)];
              && Run(es).Some? && Run(es).value.Offline()
              && Run(es).value.statuses == [OFFLINE, ONLINE] && !Truthful(Run(es).value)
  {
    forall cmd | cmd == Unknown || cmd == Enable
      ensures var es := [Control(cmd)];
              && Run(es).Some? && Run(es).value.Offline()
              && Run(es).value.statuses == [OFFLINE, ONLINE] && !Truthful(Run(es).value)
    {
      assert Run([]) == Some(Birth());
      RunSnoc([], Control(cmd));
      assert [] + [Control(cmd)] == [Control(cmd)];
    }
  }

  // ---------------------------------------------------------------- enabled and disabled

  /** The last ENABLE or DISABLE. */
  function LastSwitch(es: Trace): Option<Command> {
    if es == [] then None
    else
      match es[|es|-1]
      case Control(Enable) => Some(Enable)
      case Control(Disable) => Some(Disable)
      case _ => LastSwitch(es[..|es|-1])
  }

  lemma NextEnabled(s: Slave, e: Event)
    requires Allowed(s, e)
    ensures Next(s, e).enabled ==
            if e == Control(Enable) then true else if e == Control(Disable) then false else s.enabled
  {
  }

  /** A slave is enabled unless the last of these was DISABLE. */
  lemma {:induction false} EnabledUnlessSwitchedOff(es: Trace)
    requires Run(es).Some?
    ensures Run(es).value.enabled <==> LastSwitch(es) != Some(Disable)
    decreases |es|
  {
    if es != [] {
      hide Run, Next, Allowed;
      LastStep(es);
      EnabledUnlessSwitchedOff(es[..|es|-1]);
      NextEnabled(Run(es[..|es|-1]).value, es[|es|-1]);
    } else {
      assert Run(es) == Some(Birth());
    }
  }

  /** While it is switched off no command joins its queue and no call of slave_poll begins. */
  lemma SwitchedOffIsLeftAlone(es: Trace, i: nat)
    requires Run(es).Some? && i < |es| && LastSwitch(es[..i]) == Some(Disable)
    ensures !es[i].Push? && !es[i].Begin?
  {
    StepAt(es, i);
    EnabledUnlessSwitchedOff(es[..i]);
  }

  // ---------------------------------------------------------------- sequence numbers

  /** The numbers under which replies have been accepted, in order. */
  function AcceptedSeqs(es: Trace): seq<nat> {
    if es == [] then []
    else
      var before := es[..|es|-1];
      if es[|es|-1] == Answer(Accepted) && EndsWithTransmit(Call(before))
      then AcceptedSeqs(before) + [Call(before)[|Call(before)|-1].seqno]
      else AcceptedSeqs(before)
  }

  predicate EndsWithTransmit(c: Trace) { c != [] && c[|c|-1].Transmit? }

  ghost predicate NoNaks(es: Trace) { Answer(Nak) !in es }

  /** While a reply is awaited, the call's last step was a transmission under the present number. */
  lemma AwaitsItsNumber(es: Trace)
    requires Run(es).Some? && Run(es).value.place.Awaiting?
    ensures EndsWithTransmit(Call(es)) && Call(es)[|Call(es)|-1].seqno == Run(es).value.txseq
  {
    PlaceHolds(es);
  }

  /** The numbers accepted grow by the present number, when a reply is accepted. */
  lemma AcceptedStep(es: Trace)
    requires Run(es).Some? && es != []
    ensures var before := es[..|es|-1];
            && Run(before).Some?
            && AcceptedSeqs(es) == AcceptedSeqs(before) +
               if es[|es|-1] == Answer(Accepted) then [Run(before).value.txseq] else []
  {
    LastStep(es);
    if es[|es|-1].Answer? {
      AwaitsItsNumber(es[..|es|-1]);
    }
  }

  lemma {:induction false} SequenceInv(es: Trace)
    requires Run(es).Some?
    ensures var s, a := Run(es).value, AcceptedSeqs(es);
            && s.txseq <= 3
            && (a != [] ==> s.txseq == NextSeq(a[|a|-1]) || s.txseq == 0)
            && (forall q :: q in a ==> q <= 3)
            && (EverAccepted(es) <==> a != [])
            && (NoNaks(es) ==> s.txseq == if a == [] then 0 else NextSeq(a[|a|-1]))
    decreases |es|
  {
    if es != [] {
      hide Run, Next, Allowed, AcceptedSeqs;
      LastStep(es);
      AcceptedStep(es);
      var before, e := es[..|es|-1], es[|es|-1];
      SequenceInv(before);
      NextNumber(Run(before).value, e);
    }
  }

  /** The number changes only when a reply is accepted or a NAK comes. */
  lemma SequenceChanges(s: Slave, e: Event)
    requires Allowed(s, e) && Next(s, e).txseq != s.txseq
    ensures e == Answer(Accepted) || e == Answer(Nak)
  {
  }

  lemma NextDiffers(q: nat)
    requires q <= 3
    ensures NextSeq(q) != q && 1 <= NextSeq(q) <= 3
  {
  }

  lemma LastPairDiffers(a: seq<nat>, b: seq<nat>, q: nat)
    requires b == a + [q] && a != [] && a[|a|-1] <= 3 && (q == NextSeq(a[|a|-1]) || q == 0)
    ensures b[|a|] == NextSeq(b[|a|-1]) || b[|a|] == 0
    ensures b[|a|-1] == b[|a|] ==> b[|a|-1] == 0
  {
    NextDiffers(a[|a|-1]);
  }

  /** Two polls accepted in a row never carry the same nonzero number. */
  lemma {:induction false} NeighboursDiffer(es: Trace, i: nat)
    requires Run(es).Some? && i + 1 < |AcceptedSeqs(es)|
    ensures var a := AcceptedSeqs(es); a[i + 1] == NextSeq(a[i]) || a[i + 1] == 0
    ensures AcceptedSeqs(es)[i] == AcceptedSeqs(es)[i + 1] ==> AcceptedSeqs(es)[i] == 0
    decreases |es|
  {
    assert es != [];
    hide Run, AcceptedSeqs, NextSeq, EverAccepted, NoNaks;
    AcceptedStep(es);
    var before := es[..|es|-1];
    SequenceInv(before);
    var a := AcceptedSeqs(before);
    if i + 1 < |a| {
      NeighboursDiffer(before, i);
    } else {
      assert a[i] in a;
      LastPairDiffers(a, AcceptedSeqs(es), Run(before).value.txseq);
    }
  }

  /** The nth of 0, 1, 2, 3, 1, 2, 3, ... */
  function Nth(n: nat): nat { if n == 0 then 0 else (n - 1) % 3 + 1 }

  lemma NthIsNext(n: nat)
    ensures NextSeq(Nth(n)) == Nth(n + 1)
  {
  }

  /** Without NAK replies the accepted numbers are exactly 0, 1, 2, 3, 1, 2, 3, ... */
  lemma {:induction false} NumbersCycle(es: Trace)
    requires Run(es).Some? && NoNaks(es)
    ensures forall i :: 0 <= i < |AcceptedSeqs(es)| ==> AcceptedSeqs(es)[i] == Nth(i)
    decreases |es|
  {
    if es != [] {
      hide Run, AcceptedSeqs, NextSeq, EverAccepted;
      AcceptedStep(es);
      var before := es[..|es|-1];
      assert NoNaks(before);
      NumbersCycle(before);
      NumberIsNth(before);
      hide Nth, NoNaks;
    }
  }

  /** Without NAK replies the present number is the one after those accepted. */
  lemma NumberIsNth(es: Trace)
    requires Run(es).Some? && NoNaks(es)
    requires forall i :: 0 <= i < |AcceptedSeqs(es)| ==> AcceptedSeqs(es)[i] == Nth(i)
    ensures Run(es).value.txseq == Nth(|AcceptedSeqs(es)|)
  {
    hide Run, AcceptedSeqs, NextSeq, EverAccepted;
    SequenceInv(es);
    var a := AcceptedSeqs(es);
    if a != [] {
      NthIsNext(|a| - 1);
    }
  }

  /** Without NAK replies no queued command is ever sent under number 0. */
  lemma CommandsNumbered(es: Trace, i: nat)
    requires Run(es).Some? && NoNaks(es) && i < |es|
    requires es[i].Transmit? && es[i].sendmsg
    ensures 1 <= es[i].seqno <= 3
  {
    StepAt(es, i);
    PlaceHolds(es[..i]);
    OnlineIsNumbered(es[..i]);
  }

  lemma OnlineIsNumbered(es: Trace)
    requires Run(es).Some? && NoNaks(es) && !Run(es).value.Offline()
    ensures 1 <= Run(es).value.txseq <= 3
  {
    SequenceInv(es);
    RetryCounts(es);
    var a := AcceptedSeqs(es);
    assert a[|a|-1] in a;
  }

  // ---------------------------------------------------------------- back-off

  /** The clock reading an event carries. */
  function TimeOf(e: Event): Option<Timespec> {
    match e
    case Tickle(t) => Some(t)
    case Recheck(t) => Some(t)
    case Answer(Failed(t)) => Some(t)
    case _ => None
  }

  /** Every clock reading is a proper time. */
  ghost predicate ProperClock(es: Trace) {
    forall e :: e in es && TimeOf(e).Some? ==> Normal(TimeOf(e).value)
  }

  /** The instants at which polls were made in the offline branch. */
  function OfflinePolls(es: Trace): seq<int> {
    if es == [] then []
    else
      var before, e := es[..|es|-1], es[|es|-1];
      if e.Tickle? && Run(es).Some? && Run(es).value.place.Sending?
      then OfflinePolls(before) + [Nanos(e.now)]
      else OfflinePolls(before)
  }

  /** The clock reading of the last failed read. */
  function LastFailure(es: Trace): Option<Timespec> {
    if es == [] then None
    else
      match es[|es|-1]
      case Answer(Failed(t)) => Some(t)
      case _ => LastFailure(es[..|es|-1])
  }

  lemma TimesStep(s: Slave, e: Event)
    requires Allowed(s, e)
    ensures var t := Next(s, e);
            && (e.Tickle? && t.place.Sending? && Normal(e.now) ==>
                  Normal(t.nextAssign) && Nanos(t.nextAssign) == Nanos(e.now) + 5 * BILLION)
            && (!(e.Tickle? && t.place.Sending?) ==> t.nextAssign == s.nextAssign)
  {
  }

  lemma FailureStep(s: Slave, e: Event)
    requires Allowed(s, e)
    ensures var t := Next(s, e);
            && (e.Answer? && e.reply.Failed? && 0 < t.retry < RETRY_MAX && Normal(e.reply.now) ==>
                  && t.nextPoll.Some? && Normal(t.nextPoll.value)
                  && Nanos(t.nextPoll.value) == Nanos(e.reply.now) + 10_000_000)
            && (t.nextPoll != s.nextPoll ==> e.Answer? && e.reply.Failed? && s.retry + 1 == t.retry < RETRY_MAX)
            && (t.retry == s.retry || t.retry == 0 || (e.Answer? && e.reply.Failed?))
  {
    if e.Answer? && e.reply.Failed? && Normal(e.reply.now) {
      PlusCarryNormal(e.reply.now, 0, 10_000_000);
    }
  }

  /** The time stored for the next offline poll is proper, and five seconds after the last one. */
  lemma {:induction false} TickleTimes(es: Trace)
    requires Run(es).Some? && ProperClock(es)
    ensures var s, p := Run(es).value, OfflinePolls(es);
            && Normal(s.nextAssign)
            && Nanos(s.nextAssign) == (if p == [] then 0 else p[|p|-1] + 5_000_000_000)
    decreases |es|
  {
    if es != [] {
      hide Run, Next, Allowed, Normal, Nanos;
      LastStep(es);
      var before, e := es[..|es|-1], es[|es|-1];
      TickleTimes(before);
      assert e in es;
      TimesStep(Run(before).value, e);
    }
  }

  /** While an online slave is being retried, the time stored is ten milliseconds past its failure. */
  lemma {:induction false} RetryTimes(es: Trace)
    requires Run(es).Some? && ProperClock(es)
    ensures var s := Run(es).value;
            && s.retry >= 0
            && (s.nextPoll.Some? ==> Normal(s.nextPoll.value))
            && (0 < s.retry < RETRY_MAX ==>
                  && s.nextPoll.Some? && LastFailure(es).Some?
                  && Nanos(s.nextPoll.value) == Nanos(LastFailure(es).value) + 10_000_000)
    decreases |es|
  {
    if es != [] {
      hide Run, Next, Allowed, Normal, Nanos;
      LastStep(es);
      var before, e := es[..|es|-1], es[|es|-1];
      RetryTimes(before);
      assert e in es;
      FailureStep(Run(before).value, e);
    }
  }

  /** Offline polls of one slave are five seconds apart, even across an online spell. */
  lemma {:induction false} OfflinePollsApart(es: Trace, i: nat, j: nat)
    requires Run(es).Some? && ProperClock(es)
    requires i < j < |OfflinePolls(es)|
    ensures OfflinePolls(es)[j] >= OfflinePolls(es)[i] + 5_000_000_000 * (j - i)
    decreases |es|
  {
    assert es != [];
    hide Run, Next, Allowed, Normal, Nanos, Before;
    LastStep(es);
    var before, e := es[..|es|-1], es[|es|-1];
    assert e in es;
    if j < |OfflinePolls(before)| {
      OfflinePollsApart(before, i, j);
    } else {
      TickleTimes(before);
      TickleWaits(Run(before).value, e);
      BeforeIsOrder(e.now, Run(before).value.nextAssign);
      if i < j - 1 {
        OfflinePollsApart(before, i, j - 1);
      }
    }
  }

  lemma TickleWaits(s: Slave, e: Event)
    requires Allowed(s, e) && e.Tickle? && Next(s, e).place.Sending?
    ensures !Before(e.now, s.nextAssign)
  {
  }

  /** A look at the clock before a retry lets it go ahead exactly from ten milliseconds after the last failure. */
  lemma RetryGoesAhead(es: Trace, i: nat)
    requires Run(es).Some? && ProperClock(es) && i < |es| && es[i].Recheck?
    ensures LastFailure(es[..i]).Some? && Run(es[..i+1]).Some?
    ensures Run(es[..i+1]).value.place ==
            if Nanos(es[i].now) >= Nanos(LastFailure(es[..i]).value) + 10_000_000 then Choosing else Idle
  {
    StepAt(es, i);
    PlaceHolds(es[..i]);
    RetryTimes(es[..i]);
    assert es[i] in es;
    BeforeIsOrder(es[i].now, Run(es[..i]).value.nextPoll.value);
  }

  /** An offline slave is polled exactly from five seconds after it was last polled offline. */
  lemma TickleGoesAhead(es: Trace, i: nat)
    requires Run(es).Some? && ProperClock(es) && i < |es| && es[i].Tickle?
    ensures Run(es[..i+1]).Some?
    ensures var p := OfflinePolls(es[..i]);
            Run(es[..i+1]).value.place ==
            if Nanos(es[i].now) >= (if p == [] then 0 else p[|p|-1] + 5_000_000_000) then Sending([0x60], false) else Idle
  {
    StepAt(es, i);
    TickleTimes(es[..i]);
    assert es[i] in es;
    BeforeIsOrder(es[i].now, Run(es[..i]).value.nextAssign);
  }

  /** A retry to an online slave goes ahead only ten milliseconds after its last failure. */
  lemma RetriesBackOff(es: Trace, i: nat)
    requires Run(es).Some? && ProperClock(es) && i < |es|
    requires es[i].Recheck? && Run(es[..i+1]).Some? && Run(es[..i+1]).value.place == Choosing
    ensures LastFailure(es[..i]).Some?
    ensures Nanos(es[i].now) >= Nanos(LastFailure(es[..i]).value) + 10_000_000
  {
    RetryGoesAhead(es, i);
  }

  /** The retry time is always written before it is read. */
  lemma {:induction false} RetryTimeWritten(es: Trace)
    requires Run(es).Some?
    ensures 0 < Run(es).value.retry < RETRY_MAX ==> Run(es).value.nextPoll.Some?
    ensures Run(es).value.place == Retrying ==> Run(es).value.nextPoll.Some?
    decreases |es|
  {
    PlaceHolds(es);
    if es != [] {
      hide Run, Next, Allowed;
      LastStep(es);
      RetryTimeWritten(es[..|es|-1]);
      NextRetry(Run(es[..|es|-1]).value, es[|es|-1]);
      NextTimes(Run(es[..|es|-1]).value, es[|es|-1]);
    } else {
      assert Run(es) == Some(Birth());
    }
  }
}
