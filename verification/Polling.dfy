/**
  One slave as the master sees it, step by step.  The bus thread's steps are the statements of
  slave_poll that touch the slave, in their order; the MQTT thread's steps, Push and Control, may
  come between any two of them.
 */
module Polling {
  import opened Bytes
  import opened Clock

  datatype Option<+T> = None | Some(value: T)

  const RETRY_MAX: int := 10
  const POLL: bytes := [0x60]

  /** Sequence numbers go 0, 1, 2, 3, 1, 2, 3, ... */
  function NextSeq(q: nat): nat { if q == 3 then 1 else (q + 1) % 256 }

  datatype Status = ONLINE | OFFLINE | DISABLED

  datatype Command = Enable | Disable | Unknown

  /** How a read of the reply turns out. */
  datatype Reply =
    | Accepted               // from this slave, neither NAK nor BUSY
    | Nak
    | Busy
    | Stray                  // from another address
    | Failed(now: Timespec)  // no reply or a bad one; the clock when the slave is marked down

  /** Where the bus thread stands in slave_poll. */
  datatype Place =
    | Idle
    | Purging
    | Tickling
    | Retrying
    | Choosing
    | Sending(payload: bytes, sendmsg: bool)
    | Awaiting(payload: bytes, sendmsg: bool)
    | Popping(payload: bytes)

  datatype Event =
    | Push(msg: bytes)
    | Control(cmd: Command)
    | Begin
    | Drop(msg: bytes)
    | Purged
    | Tickle(now: Timespec)
    | Recheck(now: Timespec)
    | Choose
    | Transmit(seqno: nat, payload: bytes, sendmsg: bool)
    | Answer(reply: Reply)
    | Pop(msg: bytes)

  datatype Slave = Slave(
    retry: int,
    txseq: nat,
    queue: seq<bytes>,
    enabled: bool,
    nextAssign: Timespec,
    nextPoll: Option<Timespec>,   // None until nak first writes it
    statuses: seq<Status>,        // what declare_online has published
    place: Place)
  {
    predicate Offline() { retry >= RETRY_MAX }

    /** declare_online: a disabled slave is published as such. */
    function Declare(online: bool): Slave {
      this.(statuses := statuses + [if !enabled then DISABLED else if online then ONLINE else OFFLINE])
    }

    function Ack(): Slave {
      var s := this.(txseq := NextSeq(txseq));
      var t := if Offline() then s.Declare(true) else s;
      t.(retry := 0)
    }

    /** The clock is read at now if the slave stays online. */
    function Mark(now: Timespec): Slave {
      if Offline() then this
      else
        var s := this.(retry := retry + 1);
        if s.Offline() then s.Declare(false)
        else s.(nextPoll := Some(PlusCarry(now, 0, 10_000_000)))
    }

    /** The control message handler: note that it declares from the state before the command. */
    function Obey(cmd: Command): Slave {
      match cmd
      case Disable => this.(enabled := false).Declare(Offline())
      case Enable => this.(enabled := true).Declare(true)
      case Unknown => Declare(Offline())
    }
  }

  function Birth(): Slave {
    Slave(RETRY_MAX + 1, 0, [], true, Timespec(0, 0), None, [OFFLINE], Idle)
  }

  predicate IsMqtt(e: Event) { e.Push? || e.Control? }

  /** The steps a slave can take. */
  predicate Allowed(s: Slave, e: Event) {
    match e
    case Push(_) => s.enabled
    case Control(_) => true
    case Begin => s.place.Idle? && s.enabled
    case Drop(m) => s.place.Purging? && s.queue != [] && s.queue[0] == m
    case Purged => s.place.Purging? && s.queue == []
    case Tickle(_) => s.place.Tickling?
    case Recheck(_) => s.place.Retrying? && s.nextPoll.Some?
    case Choose => s.place.Choosing?
    case Transmit(q, p, b) => s.place == Sending(p, b) && q == s.txseq
    case Answer(_) => s.place.Awaiting?
    case Pop(m) => s.place.Popping? && s.queue != [] && s.queue[0] == m
  }

  function Next(s: Slave, e: Event): Slave
    requires Allowed(s, e)
  {
    match e
    case Push(m) => s.(queue := s.queue + [m])
    case Control(cmd) => s.Obey(cmd)
    case Begin =>
      s.(place := if s.Offline() then Purging else if s.retry > 0 then Retrying else Choosing)
    case Drop(_) => s.(queue := s.queue[1..])
    case Purged => s.(place := Tickling)
    case Tickle(now) =>
      if Before(now, s.nextAssign) then s.(place := Idle)
      else s.(nextAssign := now.(sec := now.sec + 5), place := Sending(POLL, false))
    case Recheck(now) =>
      s.(place := if Before(now, s.nextPoll.value) then Idle else Choosing)
    case Choose =>
      s.(place := if s.queue != [] then Sending(s.queue[0], true) else Sending(POLL, false))
    case Transmit(_, p, b) => s.(place := Awaiting(p, b))
    case Answer(Accepted) =>
      s.Ack().(place := if s.place.sendmsg then Popping(s.place.payload) else Idle)
    case Answer(Nak) => s.(txseq := 0, place := Idle)
    case Answer(Busy) => s.(place := Idle)
    case Answer(Stray) => s.(place := Idle)
    case Answer(Failed(now)) => s.Mark(now).(place := Idle)
    case Pop(_) => s.(queue := s.queue[1..], place := Idle)
  }

  lemma NextAccepted(s: Slave)
    requires s.place.Awaiting?
    ensures Allowed(s, Answer(Accepted))
    ensures Next(s, Answer(Accepted)) ==
            s.Ack().(place := if s.place.sendmsg then Popping(s.place.payload) else Idle)
    ensures s.Ack().queue == s.queue
  {
  }

  lemma NextFailed(s: Slave, now: Timespec)
    requires s.place.Awaiting?
    ensures Allowed(s, Answer(Failed(now)))
    ensures Next(s, Answer(Failed(now))) == s.Mark(now).(place := Idle)
    ensures s.Mark(now).queue == s.queue
  {
  }

  lemma NextPopped(s: Slave)
    requires s.place.Popping? && s.queue != []
    ensures Allowed(s, Pop(s.queue[0]))
    ensures Next(s, Pop(s.queue[0])) == s.(queue := s.queue[1..], place := Idle)
  {
  }

  // ---------------------------------------------------------------- what a step changes

  lemma NextQueue(s: Slave, e: Event)
    requires Allowed(s, e)
    ensures if e.Push? then Next(s, e).queue == s.queue + [e.msg]
            else if e.Drop? || e.Pop? then s.queue == [e.msg] + Next(s, e).queue
            else Next(s, e).queue == s.queue
  {
  }

  lemma NextRetry(s: Slave, e: Event)
    requires Allowed(s, e)
    ensures Next(s, e).retry ==
            if e == Answer(Accepted) then 0
            else if e.Answer? && e.reply.Failed? && !s.Offline() then s.retry + 1
            else s.retry
  {
  }

  lemma NextNumber(s: Slave, e: Event)
    requires Allowed(s, e)
    ensures Next(s, e).txseq ==
            if e == Answer(Accepted) then NextSeq(s.txseq)
            else if e == Answer(Nak) then 0
            else s.txseq
  {
  }

  lemma NextStatuses(s: Slave, e: Event)
    requires Allowed(s, e) && !e.Control?
    ensures Next(s, e).enabled == s.enabled
    ensures Next(s, e).statuses == s.statuses +
            if s.Offline() == Next(s, e).Offline() then []
            else [if !s.enabled then DISABLED else if s.Offline() then ONLINE else OFFLINE]
  {
  }

  /** A control message publishes one status: what the source declares, true or not. */
  lemma ControlStatuses(s: Slave, cmd: Command)
    ensures var t := Next(s, Control(cmd));
            && t == s.(enabled := t.enabled, statuses := t.statuses)
            && t.enabled == (if cmd == Unknown then s.enabled else cmd == Enable)
            && t.statuses == s.statuses +
               if !t.enabled then [DISABLED]
               else if cmd == Enable || s.retry >= 10 then [ONLINE]
               else [OFFLINE]
  {
  }

  lemma NextTimes(s: Slave, e: Event)
    requires Allowed(s, e)
    ensures Next(s, e).nextAssign ==
            if e.Tickle? && !Before(e.now, s.nextAssign) then e.now.(sec := e.now.sec + 5)
            else s.nextAssign
    ensures Next(s, e).nextPoll ==
            if e.Answer? && e.reply.Failed? && s.retry + 1 < 10
            then Some(PlusCarry(e.reply.now, 0, 10_000_000))
            else s.nextPoll
    ensures e.Tickle? ==> (Next(s, e).place.Sending? <==> !Before(e.now, s.nextAssign))
  {
  }

  type Trace = seq<Event>

  /** The state a trace leads to from birth, if every step of it could be taken. */
  function Run(es: Trace): Option<Slave> {
    if es == [] then Some(Birth())
    else
      match Run(es[..|es|-1])
      case None => None
      case Some(s) =>
        var e := es[|es|-1];
        if Allowed(s, e) then Some(Next(s, e)) else None
  }

  lemma {:induction false} PrefixRuns(es: Trace, i: nat)
    requires i <= |es| && Run(es).Some?
    ensures Run(es[..i]).Some?
    decreases |es| - i
  {
    if i < |es| {
      PrefixRuns(es, i + 1);
      assert es[..i+1][..i] == es[..i];
    } else {
      assert es[..i] == es;
    }
  }

  /** The last step of a run. */
  lemma LastStep(es: Trace)
    requires Run(es).Some? && es != []
    ensures var before, e := es[..|es|-1], es[|es|-1];
            && es == before + [e]
            && Run(before).Some? && Allowed(Run(before).value, e)
            && Run(es) == Some(Next(Run(before).value, e))
  {
  }

  lemma RunSnoc(es: Trace, e: Event)
    requires Run(es).Some? && Allowed(Run(es).value, e)
    ensures Run(es + [e]) == Some(Next(Run(es).value, e))
  {
    assert (es + [e])[..|es|] == es;
  }

  lemma StepAt(es: Trace, i: nat)
    requires i < |es| && Run(es).Some?
    ensures Run(es[..i]).Some? && Allowed(Run(es[..i]).value, es[i])
    ensures Run(es[..i+1]) == Some(Next(Run(es[..i]).value, es[i]))
  {
    PrefixRuns(es, i + 1);
    PrefixRuns(es, i);
    assert es[..i+1][..i] == es[..i];
  }
}
