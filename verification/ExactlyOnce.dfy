/**
  Master and peripheral over a line that loses commands and replies.

  The peripheral's rule is the one written down beside the slave's sequence numbers: a repeated
  number gets the last reply again, number 0 means a restarted master and also gets the last reply
  again, and any other number is a new command to carry out.  A busy peripheral does neither.
  Every poll flushes stale input, so a reply belongs to the poll it follows.
 */
module ExactlyOnce {
  import opened Bytes
  import opened Clock
  import opened Polling
  import opened PollingRuns

  /** last: the number last seen, arbitrary at first.  executed: commands carried out, by push order. */
  datatype Peripheral = Peripheral(last: int, executed: seq<nat>)

  /** A number that asks for the last reply again. */
  predicate Stale(p: Peripheral, seqno: int) { seqno == 0 || seqno == p.last }

  function Process(p: Peripheral, seqno: int, command: Option<nat>): Peripheral {
    if Stale(p, seqno) then p.(last := seqno)
    else Peripheral(seqno, p.executed + if command.Some? then [command.value] else [])
  }

  /** What becomes of one poll on the line. */
  datatype Fate =
    | CommandLost(at: Timespec)
    | ReplyLost(at: Timespec)
    | Answered
    | BusyHeard
    | BusyLost(at: Timespec)
    | NakHeard
    | Strayed(processed: bool)

  function ReplyOf(f: Fate): Reply {
    match f
    case CommandLost(t) => Failed(t)
    case ReplyLost(t) => Failed(t)
    case Answered => Accepted
    case BusyHeard => Reply.Busy
    case BusyLost(t) => Failed(t)
    case NakHeard => Reply.Nak
    case Strayed(_) => Stray
  }

  predicate Processes(f: Fate) { f.ReplyLost? || f.Answered? || (f.Strayed? && f.processed) }

  /** A step of the master other than the end of a poll, or the end of a poll. */
  datatype Act = Local(event: Event) | Exchange(fate: Fate)

  function EventOf(a: Act): Event {
    match a
    case Local(e) => e
    case Exchange(f) => Answer(ReplyOf(f))
  }

  /**
    The two parties, and the history of the commands: each command is known by its place in the
    order of pushes, so the head of the queue is number |acked| + |purged|.
   */
  datatype System = System(
    m: Slave,
    p: Peripheral,
    pushed: nat,
    removed: nat,
    acked: seq<nat>,      // popped on an accepted reply
    purged: seq<nat>,     // dropped while offline
    spoiled: set<nat>,    // sent, not yet executed, under a number that is not taken for a new one
    polled: bool)         // a plain poll went out since the last accepted reply

  function Start(last: int): System {
    System(Birth(), Peripheral(last, []), 0, 0, [], [], {}, false)
  }

  predicate CanAct(y: System, a: Act) {
    Allowed(y.m, EventOf(a)) && (a.Local? ==> !a.event.Answer?)
  }

  /** The command being offered, if the poll carries one. */
  function Offered(y: System): Option<nat> {
    match y.m.place
    case Awaiting(_, b) => if b then Some(y.removed) else None
    case Sending(_, b) => if b then Some(y.removed) else None
    case _ => None
  }

  function Do(y: System, a: Act): System
    requires CanAct(y, a)
  {
    var m := Next(y.m, EventOf(a));
    match a
    case Exchange(f) =>
      y.(m := m,
         p := if Processes(f) then Process(y.p, y.m.txseq, Offered(y)) else y.p,
         polled := y.polled && !f.Answered?)
    case Local(Push(_)) => y.(m := m, pushed := y.pushed + 1)
    case Local(Drop(_)) => y.(m := m, removed := y.removed + 1, purged := y.purged + [y.removed])
    case Local(Pop(_)) => y.(m := m, removed := y.removed + 1, acked := y.acked + [y.removed])
    case Local(Transmit(q, _, b)) =>
      y.(m := m,
         polled := y.polled || !b,
         spoiled := y.spoiled +
           if b && Stale(y.p, q) && y.removed !in y.p.executed then {y.removed} else {})
    case Local(_) => y.(m := m)
  }

  type Play = seq<Act>

  function Perform(last: int, acts: Play): Option<System> {
    if acts == [] then Some(Start(last))
    else
      match Perform(last, acts[..|acts|-1])
      case None => None
      case Some(y) =>
        var a := acts[|acts|-1];
        if CanAct(y, a) then Some(Do(y, a)) else None
  }

  /** The master's side of a play is a run of the polling machine. */
  function Events(acts: Play): (es: Trace)
    ensures |es| == |acts|
  {
    if acts == [] then [] else Events(acts[..|acts|-1]) + [EventOf(acts[|acts|-1])]
  }

  lemma {:induction false} MasterRuns(last: int, acts: Play)
    requires Perform(last, acts).Some?
    ensures Run(Events(acts)) == Some(Perform(last, acts).value.m)
    decreases |acts|
  {
    if acts != [] {
      var before := acts[..|acts|-1];
      MasterRuns(last, before);
      RunSnoc(Events(before), EventOf(acts[|acts|-1]));
    }
  }

  /** And every run of the polling machine can be played, whatever becomes of its polls on the line. */
  lemma {:induction false} RunsArePlayed(last: int, acts: Play)
    requires Run(Events(acts)).Some? && forall a :: a in acts && a.Local? ==> !a.event.Answer?
    ensures Perform(last, acts).Some?
    decreases |acts|
  {
    if acts != [] {
      var before, a := acts[..|acts|-1], acts[|acts|-1];
      assert a in acts;
      LastStep(Events(acts));
      assert Events(acts)[..|acts|-1] == Events(before);
      RunsArePlayed(last, before);
      MasterRuns(last, before);
    }
  }

  /** One fate that makes a reply come out so. */
  function FateOf(r: Reply): Fate {
    match r
    case Accepted => Answered
    case Nak => NakHeard
    case Busy => BusyHeard
    case Stray => Strayed(false)
    case Failed(t) => CommandLost(t)
  }

  /** There is a play of every run. */
  lemma {:induction false} EveryRunHasAPlay(es: Trace) returns (acts: Play)
    ensures Events(acts) == es && forall a :: a in acts && a.Local? ==> !a.event.Answer?
    decreases |es|
  {
    acts := [];
    if es != [] {
      var before, e := es[..|es|-1], es[|es|-1];
      acts := EveryRunHasAPlay(before);
      var a := if e.Answer? then Exchange(FateOf(e.reply)) else Local(e);
      assert (acts + [a])[..|acts|] == acts;
      acts := acts + [a];
    }
  }

  /** A play counts the pushes and removals of the master's run. */
  lemma {:induction false} PlayCounts(last: int, acts: Play)
    requires Perform(last, acts).Some?
    ensures Perform(last, acts).value.pushed == |Pushed(Events(acts))|
    ensures Perform(last, acts).value.removed == |Removed(Events(acts))|
    decreases |acts|
  {
    if acts != [] {
      hide Next, Allowed, Process;
      PlayCounts(last, acts[..|acts|-1]);
    }
  }

  ghost predicate NakFree(acts: Play) { Exchange(NakHeard) !in acts }

  // ---------------------------------------------------------------- the invariant

  predicate Increasing(s: seq<nat>) { forall i, j :: 0 <= i < j < |s| ==> s[i] < s[j] }

  /** The head of the queue has been dealt with by the peripheral, though the master cannot know. */
  predicate HeadSettled(y: System) { y.removed in y.p.executed || y.removed in y.spoiled }

  predicate Offline(y: System) { y.m.Offline() }

  /** Counting: removals are numbered from the front, executions never run ahead of the head. */
  ghost predicate Counts(y: System) {
    && y.removed + |y.m.queue| == y.pushed
    && Increasing(y.p.executed)
    && (forall k :: k in y.p.executed ==> k <= y.removed)
    && (forall k :: k in y.spoiled ==> k <= y.removed && k !in y.p.executed)
  }

  /** Every removed command was executed unless it was spoiled, if an accepted reply removed it. */
  ghost predicate Settled(y: System) {
    && Increasing(y.acked) && Increasing(y.purged)
    && (forall k :: k in y.purged ==> k < y.removed)
    && (forall k :: k in y.acked ==> k < y.removed && (k in y.p.executed <==> k !in y.spoiled))
    && (forall k: nat :: k < y.removed ==> (k in y.acked <==> k !in y.purged))
  }

  /** Where the head may be settled, and what the numbers then are. */
  ghost predicate Numbers(y: System) {
    && y.m.txseq <= 3
    && (HeadSettled(y) ==>
          && y.m.queue != []
          && if y.m.place.Popping? then true
             else Stale(y.p, y.m.txseq) && (!Offline(y) || y.m.place.Idle? || y.m.place.Purging?))
    && match y.m.place
       case Sending(_, b) => if b then y.m.queue != [] && !Offline(y) else !HeadSettled(y)
       case Awaiting(_, b) =>
         if b then y.m.queue != [] && !Offline(y) && (Stale(y.p, y.m.txseq) ==> HeadSettled(y))
         else !HeadSettled(y)
       case Popping(_) => y.m.queue != [] && HeadSettled(y)
       case Purging => Offline(y)
       case Tickling => Offline(y) && !HeadSettled(y)
       case Retrying => !Offline(y)
       case Choosing => !Offline(y)
       case Idle => true
  }

  ghost predicate Inv(y: System) { Counts(y) && Settled(y) && Numbers(y) }

  lemma PushKept(y: System, a: Act)
    requires Inv(y) && CanAct(y, a) && a.Local? && IsMqtt(a.event)
    ensures Inv(Do(y, a))
  {
  }

  lemma IncreasingSnoc(s: seq<nat>, k: nat)
    requires Increasing(s) && forall j :: j in s ==> j < k
    ensures Increasing(s + [k])
    ensures forall j :: j in s + [k] <==> j in s || j == k
  {
    forall i | 0 <= i < |s|
      ensures s[i] < k
    {
      assert s[i] in s;
    }
  }

  lemma RemovalKept(y: System, a: Act)
    requires Inv(y) && CanAct(y, a) && a.Local? && (a.event.Drop? || a.event.Pop?)
    ensures Inv(Do(y, a))
  {
    if a.event.Pop? {
      IncreasingSnoc(y.acked, y.removed);
    } else {
      IncreasingSnoc(y.purged, y.removed);
    }
    assert !HeadSettled(Do(y, a));
  }

  lemma MoveKept(y: System, a: Act)
    requires Inv(y) && CanAct(y, a) && a.Local?
    requires a.event.Begin? || a.event.Purged? || a.event.Tickle? || a.event.Recheck? || a.event.Choose?
    ensures Inv(Do(y, a))
  {
    assert HeadSettled(Do(y, a)) == HeadSettled(y);
  }

  lemma TransmitKept(y: System, a: Act)
    requires Inv(y) && CanAct(y, a) && a.Local? && a.event.Transmit?
    ensures Inv(Do(y, a))
  {
  }

  /** The peripheral's half of an exchange: afterwards an offered command is settled. */
  lemma ProcessingSettles(y: System)
    requires Inv(y) && y.m.place.Awaiting?
    ensures var p := Process(y.p, y.m.txseq, Offered(y));
            && p.last == y.m.txseq && Increasing(p.executed)
            && (forall k :: k in y.p.executed ==> k in p.executed)
            && (forall k :: k in p.executed ==> k in y.p.executed || (k == y.removed && Offered(y).Some?))
            && (Offered(y).Some? ==> y.removed in p.executed || y.removed in y.spoiled)
            && (y.removed in y.spoiled ==> y.removed !in p.executed)
  {
    var e, p := y.p.executed, Process(y.p, y.m.txseq, Offered(y));
    if p.executed != e {
      assert p.executed == e + [y.removed] && y.removed !in e;
      IncreasingSnoc(e, y.removed);
    }
  }

  lemma ExchangeCounts(y: System, f: Fate)
    requires Inv(y) && CanAct(y, Exchange(f))
    ensures var z := Do(y, Exchange(f));
            && Counts(z) && Settled(z)
            && (HeadSettled(z) <==> HeadSettled(y) || (Processes(f) && Offered(y).Some?))
            && (Processes(f) ==> z.p.last == y.m.txseq) && (!Processes(f) ==> z.p.last == y.p.last)
            && z.m.queue == y.m.queue
  {
    hide Process;
    ProcessingSettles(y);
  }

  lemma ExchangeKept(y: System, f: Fate)
    requires Inv(y) && CanAct(y, Exchange(f))
    ensures Inv(Do(y, Exchange(f)))
  {
    ExchangeCounts(y, f);
    NextDiffers(y.m.txseq);
    hide Counts, Settled, Process, NextSeq, HeadSettled;
  }

  lemma {:induction false} InvHolds(last: int, acts: Play)
    requires Perform(last, acts).Some?
    ensures Inv(Perform(last, acts).value)
    decreases |acts|
  {
    if acts != [] {
      hide Inv, Do;
      var before, a := acts[..|acts|-1], acts[|acts|-1];
      InvHolds(last, before);
      var y := Perform(last, before).value;
      match a
      case Exchange(f) => ExchangeKept(y, f);
      case Local(Push(_)) => PushKept(y, a);
      case Local(Control(_)) => PushKept(y, a);
      case Local(Drop(_)) => RemovalKept(y, a);
      case Local(Pop(_)) => RemovalKept(y, a);
      case Local(Transmit(_, _, _)) => TransmitKept(y, a);
      case Local(_) => MoveKept(y, a);
    }
  }

  // ---------------------------------------------------------------- what holds of every play

  /** A command popped on an accepted reply was executed exactly once. */
  predicate Once(y: System, k: nat) {
    k in y.p.executed && forall i, j :: 0 <= i < j < |y.p.executed| ==> y.p.executed[i] != k || y.p.executed[j] != k
  }

  /**
    Whatever is lost on the line, whatever is answered and whenever messages are pushed: commands
    are executed at most once each and in push order; every removed command was either popped or
    purged; and a popped one was executed exactly once if, and only if, it was never sent before
    its execution under a number the peripheral takes for a repetition or a restart.
   */
  lemma ExecutedUnlessSpoiled(last: int, acts: Play)
    requires Perform(last, acts).Some?
    ensures var y := Perform(last, acts).value;
            && Increasing(y.p.executed)
            && (forall k: nat :: k < y.removed ==> (k in y.acked <==> k !in y.purged))
            && (forall k :: k in y.acked ==> (Once(y, k) <==> k !in y.spoiled))
  {
    InvHolds(last, acts);
    hide Perform, Numbers;
  }

  // ---------------------------------------------------------------- the hypothesis on pushes

  /** A plain poll has been sent, or is about to be, and no reply has been accepted since. */
  predicate PollUnanswered(y: System) {
    y.polled || (y.m.place.Sending? && !y.m.place.sendmsg)
  }

  /** An online slave with nothing queued and a plain poll unanswered: not the time to push. */
  predicate Hazard(y: System) { !Offline(y) && y.m.queue == [] && PollUnanswered(y) }

  ghost predicate Careful(last: int, acts: Play) {
    forall i {:trigger acts[i]} :: 0 <= i < |acts| && acts[i].Local? && acts[i].event.Push? ==>
      Perform(last, acts[..i]).Some? ==> !Hazard(Perform(last, acts[..i]).value)
  }

  /** No command goes out under number 0. */
  ghost predicate Numbered(acts: Play) {
    forall a :: a in acts && a.Local? && a.event.Transmit? && a.event.sendmsg ==> a.event.seqno != 0
  }

  /** A number already used was used by the head of the queue, or by a plain poll. */
  ghost predicate Accounted(y: System) {
    && (y.m.place.Awaiting? && !y.m.place.sendmsg ==> y.polled)
    && (y.m.place.Popping? ==> y.p.last != y.m.txseq)
    && (!Offline(y) && !y.m.place.Popping? && y.m.txseq != 0 && y.p.last == y.m.txseq ==> HeadSettled(y) || y.polled)
  }

  ghost predicate Clean(y: System) {
    y.spoiled == {} && (!Offline(y) && PollUnanswered(y) ==> y.m.queue == [])
  }

  lemma AccountedLocally(y: System, a: Act)
    requires Inv(y) && Accounted(y) && CanAct(y, a) && a.Local?
    ensures Accounted(Do(y, a))
  {
  }

  lemma AccountedOnTheLine(y: System, f: Fate)
    requires Inv(y) && Accounted(y) && CanAct(y, Exchange(f))
    ensures Accounted(Do(y, Exchange(f)))
  {
    ExchangeCounts(y, f);
    NextDiffers(y.m.txseq);
    hide Counts, Settled, Process, NextSeq, HeadSettled;
  }

  lemma CleanKept(y: System, a: Act)
    requires Inv(y) && Accounted(y) && Clean(y) && CanAct(y, a)
    requires a.Local? && a.event.Push? ==> !Hazard(y)
    requires a.Local? && a.event.Transmit? && a.event.sendmsg ==> a.event.seqno != 0
    ensures Clean(Do(y, a))
  {
    hide Settled, Counts, Process, NextSeq;
  }

  lemma {:induction false} CarefulIsClean(last: int, acts: Play)
    requires Perform(last, acts).Some? && Numbered(acts) && Careful(last, acts)
    ensures Accounted(Perform(last, acts).value) && Clean(Perform(last, acts).value)
    decreases |acts|
  {
    if acts != [] {
      hide Inv, Do, Accounted, Clean, Hazard;
      var n := |acts| - 1;
      var before, a := acts[..n], acts[n];
      assert Numbered(before) && a in acts;
      assert Careful(last, before) by {
        forall i | 0 <= i < n
          ensures before[..i] == acts[..i] && before[i] == acts[i]
        {
        }
      }
      CarefulIsClean(last, before);
      InvHolds(last, before);
      var y := Perform(last, before).value;
      CleanKept(y, a);
      if a.Local? {
        AccountedLocally(y, a);
      } else {
        AccountedOnTheLine(y, a.fate);
      }
    }
  }

  /** Every acknowledged command executed exactly once, every purged one at most once, all in push order. */
  ghost predicate ExecutedOnce(y: System) {
    && Increasing(y.p.executed) && Increasing(y.acked)
    && (forall k :: k in y.acked ==> Once(y, k))
    && (forall k: nat :: k < y.removed ==> (k in y.acked <==> k !in y.purged))
  }

  /**
    Exactly once: over any pattern of lost commands and replies, NAK replies included, and from any
    state of the peripheral, provided two things the master can see to: it pushes no command into
    an empty queue while a plain poll to an online slave is unanswered, and sends none under 0.
   */
  lemma NumberedExactlyOnce(last: int, acts: Play)
    requires Perform(last, acts).Some? && Numbered(acts) && Careful(last, acts)
    ensures ExecutedOnce(Perform(last, acts).value)
  {
    ExecutedUnlessSpoiled(last, acts);
    CarefulIsClean(last, acts);
    InvHolds(last, acts);
    hide Perform;
  }

  /** Where no reply is a NAK, the second is seen to. */
  lemma NakFreeIsNumbered(last: int, acts: Play)
    requires Perform(last, acts).Some? && NakFree(acts)
    ensures Numbered(acts)
  {
    var es := Events(acts);
    MasterRuns(last, acts);
    assert NoNaks(es) by {
      forall i | 0 <= i < |acts|
        ensures es[i] != Answer(Reply.Nak)
      {
        EventsAt(acts, i);
        if acts[i].Local? {
          LocalsAnswerNothing(last, acts, i);
        } else {
          assert acts[i] in acts;
        }
      }
    }
    forall a | a in acts && a.Local? && a.event.Transmit? && a.event.sendmsg
      ensures a.event.seqno != 0
    {
      var i :| 0 <= i < |acts| && acts[i] == a;
      EventsAt(acts, i);
      CommandsNumbered(es, i);
    }
  }

  lemma {:induction false} EventsAt(acts: Play, i: nat)
    requires i < |acts|
    ensures Events(acts)[i] == EventOf(acts[i])
    decreases |acts|
  {
    if i < |acts| - 1 {
      EventsAt(acts[..|acts|-1], i);
    }
  }

  lemma {:induction false} LocalsAnswerNothing(last: int, acts: Play, i: nat)
    requires Perform(last, acts).Some? && i < |acts| && acts[i].Local?
    ensures !acts[i].event.Answer?
    decreases |acts|
  {
    if i < |acts| - 1 {
      LocalsAnswerNothing(last, acts[..|acts|-1], i);
    }
  }

  /** The same where no reply is a NAK and the first is seen to. */
  lemma ExactlyOnce(last: int, acts: Play)
    requires Perform(last, acts).Some? && NakFree(acts) && Careful(last, acts)
    ensures ExecutedOnce(Perform(last, acts).value)
  {
    NakFreeIsNumbered(last, acts);
    NumberedExactlyOnce(last, acts);
  }

  // ---------------------------------------------------------------- why the hypotheses stay

  lemma Extend(last: int, acts: Play, a: Act)
    requires Perform(last, acts).Some? && CanAct(Perform(last, acts).value, a)
    ensures Perform(last, acts + [a]) == Some(Do(Perform(last, acts).value, a))
  {
    assert (acts + [a])[..|acts|] == acts;
  }

  const T0 := Timespec(1, 0)
  const T1 := Timespec(2, 0)

  predicate IsPush(a: Act) { a.Local? && a.event.Push? }

  /** A slave coming online: one plain poll under number 0 is answered. */
  lemma ComeOnline() returns (acts: Play)
    ensures Perform(0, acts).Some? && NakFree(acts) && forall a :: a in acts ==> !IsPush(a)
    ensures var y := Perform(0, acts).value;
            && y.m == Slave(0, 1, [], true, Timespec(6, 0), None, [OFFLINE, ONLINE], Idle)
            && y == System(y.m, Peripheral(0, []), 0, 0, [], [], {}, false)
  {
    acts := ComeToPoll();
    hide Perform;
    Extend(0, acts, Local(Transmit(0, POLL, false)));
    acts := acts + [Local(Transmit(0, POLL, false))];
    Extend(0, acts, Exchange(Answered));
    acts := acts + [Exchange(Answered)];
  }

  lemma ComeToPoll() returns (acts: Play)
    ensures Perform(0, acts).Some? && NakFree(acts) && forall a :: a in acts ==> !IsPush(a)
    ensures var m := Slave(11, 0, [], true, Timespec(6, 0), None, [OFFLINE], Sending(POLL, false));
            Perform(0, acts).value == System(m, Peripheral(0, []), 0, 0, [], [], {}, false)
  {
    hide Perform;
    acts := [];
    StartsEmpty(0);
    Extend(0, acts, Local(Begin));
    acts := acts + [Local(Begin)];
    Extend(0, acts, Local(Purged));
    acts := acts + [Local(Purged)];
    Extend(0, acts, Local(Tickle(T0)));
    acts := acts + [Local(Tickle(T0))];
  }

  lemma StartsEmpty(last: int)
    ensures Perform(last, []) == Some(Start(last))
  {
  }

  /**
    A command pushed while a plain poll is unanswered can be lost: the poll gets through, its
    reply does not, the retry carries the command under the used number, the peripheral repeats
    its last reply, and the master takes that for an acknowledgement.
   */
  lemma HazardLosesACommand(c: bytes) returns (acts: Play)
    ensures Perform(0, acts).Some? && NakFree(acts)
    ensures var y := Perform(0, acts).value; y.acked == [0] && y.p.executed == []
    ensures !Careful(0, acts)
  {
    acts := ComeOnline();
    hide Perform, Careful;
    Extend(0, acts, Local(Begin));
    acts := acts + [Local(Begin)];
    Extend(0, acts, Local(Choose));
    acts := acts + [Local(Choose)];
    Extend(0, acts, Local(Transmit(1, POLL, false)));
    acts := acts + [Local(Transmit(1, POLL, false))];
    assert Hazard(Perform(0, acts).value);
    ghost var n := |acts|;
    ghost var waiting := acts;
    Extend(0, acts, Local(Push(c)));
    acts := acts + [Local(Push(c))];
    Extend(0, acts, Exchange(ReplyLost(T0)));
    acts := acts + [Exchange(ReplyLost(T0))];
    acts := RetryLosesIt(acts, c);
    assert acts[..n] == waiting && acts[n] == Local(Push(c));
    HazardIsNotCareful(0, acts, n);
  }

  lemma HazardIsNotCareful(last: int, acts: Play, n: nat)
    requires n < |acts| && acts[n].Local? && acts[n].event.Push?
    requires Perform(last, acts[..n]).Some? && Hazard(Perform(last, acts[..n]).value)
    ensures !Careful(last, acts)
  {
  }

  lemma RetryLosesIt(start: Play, c: bytes) returns (acts: Play)
    requires NakFree(start) && Perform(0, start).Some?
    requires var y := Perform(0, start).value;
             && y.m.enabled && y.m.retry == 1 && y.m.txseq == 1 && y.m.queue == [c] && y.m.place == Idle
             && y.m.nextPoll == Some(Timespec(1, 10_000_000))
             && y.p == Peripheral(1, []) && y.acked == [] && y.removed == 0
    ensures start <= acts && NakFree(acts) && Perform(0, acts).Some?
    ensures Perform(0, acts).value.acked == [0] && Perform(0, acts).value.p.executed == []
  {
    hide Perform;
    acts := start;
    Extend(0, acts, Local(Begin));
    acts := acts + [Local(Begin)];
    Extend(0, acts, Local(Recheck(T1)));
    acts := acts + [Local(Recheck(T1))];
    Extend(0, acts, Local(Choose));
    acts := acts + [Local(Choose)];
    Extend(0, acts, Local(Transmit(1, c, true)));
    acts := acts + [Local(Transmit(1, c, true))];
    Extend(0, acts, Exchange(Answered));
    acts := acts + [Exchange(Answered)];
    Extend(0, acts, Local(Pop(c)));
    acts := acts + [Local(Pop(c))];
  }

  /**
    So can any command that meets a NAK, however careful the pushes: it is sent again under number
    0, and not carried out.
   */
  lemma NakLosesACommand(c: bytes) returns (acts: Play)
    ensures Perform(0, acts).Some? && Careful(0, acts) && !Numbered(acts)
    ensures var y := Perform(0, acts).value; y.acked == [0] && y.p.executed == []
  {
    acts := ComeOnline();
    hide Perform, Careful, Numbered;
    ghost var quiet := acts;
    assert !Hazard(Perform(0, quiet).value);
    Extend(0, acts, Local(Push(c)));
    acts := acts + [Local(Push(c))];
    Extend(0, acts, Local(Begin));
    acts := acts + [Local(Begin)];
    Extend(0, acts, Local(Choose));
    acts := acts + [Local(Choose)];
    Extend(0, acts, Local(Transmit(1, c, true)));
    acts := acts + [Local(Transmit(1, c, true))];
    Extend(0, acts, Exchange(NakHeard));
    acts := acts + [Exchange(NakHeard)];
    ghost var rest := ZeroLosesIt(acts, c);
    ghost var tail := [Local(Begin), Local(Choose), Local(Transmit(1, c, true)), Exchange(NakHeard)] + rest;
    assert acts + rest == quiet + [Local(Push(c))] + tail;
    acts := acts + rest;
    OneSafePush(0, quiet, c, tail);
  }

  /** One push, when there is no hazard, is careful. */
  lemma OneSafePush(last: int, before: Play, c: bytes, after: Play)
    requires Perform(last, before).Some? && !Hazard(Perform(last, before).value)
    requires (forall a :: a in before ==> !IsPush(a)) && (forall a :: a in after ==> !IsPush(a))
    ensures Careful(last, before + [Local(Push(c))] + after)
  {
    hide Perform, Hazard;
    var acts, n := before + [Local(Push(c))] + after, |before|;
    forall i | 0 <= i < |acts| && i != n
      ensures !IsPush(acts[i])
    {
      if i < n {
        assert acts[i] == before[i];
      } else {
        assert acts[i] == after[i - n - 1];
      }
    }
    assert acts[..n] == before;
    forall i | 0 <= i < |acts| && acts[i].Local? && acts[i].event.Push?
      ensures Perform(last, acts[..i]).Some? ==> !Hazard(Perform(last, acts[..i]).value)
    {
      assert IsPush(acts[i]);
    }
  }

  /** A command sent under number 0 is not carried out, and yet acknowledged. */
  lemma ZeroLosesIt(start: Play, c: bytes) returns (rest: Play)
    requires Perform(0, start).Some?
    requires var y := Perform(0, start).value;
             && y.m.enabled && y.m.retry == 0 && y.m.txseq == 0 && y.m.queue == [c] && y.m.place == Idle
             && y.p.executed == [] && y.acked == [] && y.removed == 0
    ensures Perform(0, start + rest).Some? && !Numbered(start + rest) && forall a :: a in rest ==> !IsPush(a)
    ensures Perform(0, start + rest).value.acked == [0] && Perform(0, start + rest).value.p.executed == []
  {
    hide Perform;
    var acts := start;
    Extend(0, acts, Local(Begin));
    acts := acts + [Local(Begin)];
    Extend(0, acts, Local(Choose));
    acts := acts + [Local(Choose)];
    Extend(0, acts, Local(Transmit(0, c, true)));
    acts := acts + [Local(Transmit(0, c, true))];
    Extend(0, acts, Exchange(Answered));
    acts := acts + [Exchange(Answered)];
    Extend(0, acts, Local(Pop(c)));
    acts := acts + [Local(Pop(c))];
    rest := [Local(Begin), Local(Choose), Local(Transmit(0, c, true)), Exchange(Answered), Local(Pop(c))];
    assert acts == start + rest;
    assert Local(Transmit(0, c, true)) in acts;
  }
}
