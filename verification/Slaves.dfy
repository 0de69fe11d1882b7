/** osdpslave: one slave's fields, changed in place by the bus thread and the MQTT thread. */
module Slaves {
  import opened Bytes
  import opened Clock
  import opened Polling
  import opened PollingRuns
  import opened Protocol

  /** b is a with some steps of the MQTT thread added. */
  ghost predicate Interleaved(a: Trace, b: Trace) {
    a <= b && forall k :: |a| <= k < |b| ==> IsMqtt(b[k])
  }

  lemma InterleavedAgain(a: Trace, b: Trace, c: Trace)
    requires Interleaved(a, b) && Interleaved(b, c)
    ensures Interleaved(a, c)
  {
    forall k | |a| <= k < |c|
      ensures IsMqtt(c[k])
    {
      if k < |b| {
        assert c[k] == b[k];
      }
    }
  }

  /** The MQTT thread only appends to the queue, flips the flag and publishes. */
  predicate MqttMoves(s: Slave, t: Slave) {
    && s.queue <= t.queue
    && t == s.(queue := t.queue, enabled := t.enabled, statuses := t.statuses)
  }

  lemma {:induction false} InterleavedKeeps(a: Trace, b: Trace)
    requires Interleaved(a, b) && Run(b).Some?
    ensures Run(a).Some? && MqttMoves(Run(a).value, Run(b).value) && Call(b) == Call(a)
    decreases |b|
  {
    if |a| == |b| {
      assert a == b;
    } else {
      LastStep(b);
      InterleavedKeeps(a, b[..|b|-1]);
    }
  }

  /** The same of several slaves at once, all of them or all but number i. */
  ghost predicate AllInterleaved(a: seq<Trace>, b: seq<Trace>) {
    |a| == |b| && forall k :: 0 <= k < |a| ==> Interleaved(a[k], b[k])
  }

  ghost predicate OthersInterleaved(a: seq<Trace>, b: seq<Trace>, i: nat) {
    |a| == |b| && forall k :: 0 <= k < |a| && k != i ==> Interleaved(a[k], b[k])
  }

  lemma AllInterleavedAgain(a: seq<Trace>, b: seq<Trace>, c: seq<Trace>)
    requires AllInterleaved(a, b) && AllInterleaved(b, c)
    ensures AllInterleaved(a, c)
  {
    hide Interleaved;
    forall k | 0 <= k < |a|
      ensures Interleaved(a[k], c[k])
    {
      InterleavedAgain(a[k], b[k], c[k]);
    }
  }

  lemma OthersInterleavedAgain(a: seq<Trace>, b: seq<Trace>, c: seq<Trace>, i: nat)
    requires OthersInterleaved(a, b, i) && OthersInterleaved(b, c, i)
    ensures OthersInterleaved(a, c, i)
  {
    hide Interleaved;
    forall k | 0 <= k < |a| && k != i
      ensures Interleaved(a[k], c[k])
    {
      InterleavedAgain(a[k], b[k], c[k]);
    }
  }

  class OsdpSlave {
    const addr: byte
    var retry: int
    var nextAssign: Timespec
    var nextPoll: Option<Timespec>
    var msglist: seq<bytes>
    var txseq: nat
    var enabled: bool
    ghost var statuses: seq<Status>
    ghost var place: Place
    ghost var log: Trace

    /** A slave at a static address, declared offline at birth. */
    constructor (addr: byte)
      ensures this.addr == addr && log == [] && Valid() && place == Idle && msglist == []
    {
      this.addr := addr;
      retry := RETRY_MAX + 1;
      nextAssign, nextPoll := Timespec(0, 0), None;
      msglist, txseq, enabled := [], 0, true;
      statuses, place, log := [], Idle, [];
      new;
      DeclareOnline(false);
      assert Run([]) == Some(Birth()) && statuses == [OFFLINE];
    }

    /** The fields as one value. */
    ghost function State(): Slave
      reads this
    {
      Slave(retry, txseq, msglist, enabled, nextAssign, nextPoll, statuses, place)
    }

    /** The fields are where a run of the polling machine on a proper clock has led. */
    ghost predicate Valid()
      reads this
    {
      Run(log) == Some(State()) && ProperClock(log)
    }

    predicate Defined() { addr != 0xFF }

    predicate Offline()
      reads this
    {
      retry >= RETRY_MAX
    }

    method DeclareOnline(tf: bool)
      modifies this`statuses
      ensures State() == old(State()).Declare(tf)
    {
      ghost var val := if !enabled then DISABLED else if tf then ONLINE else OFFLINE;
      statuses := statuses + [val];
    }

    method Ack()
      modifies this`txseq, this`retry, this`statuses
      ensures State() == old(State()).Ack()
    {
      txseq := NextSeq(txseq);
      if Offline() {
        DeclareOnline(true);
      }
      retry := 0;
    }

    method Nak(line: Line)
      modifies this`retry, this`nextPoll, this`statuses
      ensures State() == old(State()).Mark(OfNanos(line.now))
    {
      if Offline() {
        return; // an offline slave has nothing more to lose
      }
      retry := retry + 1;
      if Offline() {
        DeclareOnline(false);
      } else {
        var now := line.Gettime();
        nextPoll := Some(PlusCarry(now, 0, 10_000_000));
      }
    }

    method Push(msg: bytes)
      modifies this`msglist
      ensures msglist == old(msglist) + [msg]
    {
      msglist := msglist + [msg];
    }

    method Pop() returns (ghost msg: bytes)
      requires msglist != []
      modifies this`msglist
      ensures old(msglist) == [msg] + msglist
    {
      msg := msglist[0];
      msglist := msglist[1..];
    }

    /** Record a step just taken, and where it leaves the bus thread. */
    ghost method Note(before: Slave, e: Event, to: Place)
      requires Run(log) == Some(before) && ProperClock(log) && Allowed(before, e)
      requires TimeOf(e).Some? ==> Normal(TimeOf(e).value)
      requires Next(before, e) == State().(place := to)
      modifies this`log, this`place
      ensures Valid() && log == old(log) + [e] && place == to
    {
      RunSnoc(log, e);
      log, place := log + [e], to;
    }
  }
}
