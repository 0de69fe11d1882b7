/**
  busprotocol: the bus thread's slave_poll over a list of slaves, with the MQTT thread free to
  deliver messages between any two statements.
 */
module Master {
  import opened Bytes
  import opened Clock
  import opened Frame
  import opened FrameTheory
  import Packets
  import opened Protocol
  import opened Polling
  import opened PollingRuns
  import opened Calls
  import opened Slaves
  import opened Scheduler
  import ExactlyOnce

  const OSDP_NAK: byte := 0x41
  const OSDP_BUSY: byte := 0x79

  /** A message from the broker, its topic and payload already picked apart. */
  datatype MqttMessage =
    | Outgoing(addr: nat, payload: bytes)
    | ControlFor(addr: nat, cmd: Command)

  /** The reply flag is no part of the address. */
  predicate From(field: byte, addr: byte) { field & 0x7F == addr }

  /** How the master takes a read: the reply's address and function byte decide. */
  function KindOf(addr: byte, o: Outcome, now: Timespec): Reply {
    if o.code <= 0 then Failed(now)
    else if |o.frame| < 6 || !From(o.frame[1], addr) then Stray
    else if o.frame[5] == OSDP_NAK then Reply.Nak
    else if o.frame[5] == OSDP_BUSY then Reply.Busy
    else Accepted
  }

  lemma AddressByValue(field: byte, addr: byte)
    ensures From(field, addr) <==> field as nat % 128 == addr as nat
  {
    Packets.LowSevenBits(field);
    ByteBack(field & 0x7F);
    ByteBack(addr);
  }

  /**
    How any bytes that arrive are taken by a slave's master: by the number of the station that
    answered and the code of its reply.
   */
  lemma ReplyByValue(addr: byte, arrived: bytes, now: Timespec)
    ensures var o := Receive(0xFF, arrived); var r, f := KindOf(addr, o, now), o.frame;
            if o.code <= 0 then r == Failed(now)
            else
              && |f| >= 6
              && (r == Stray <==> f[1] as nat % 128 != addr as nat)
              && (r != Stray ==> r == if f[5] == 0x41 then Reply.Nak else if f[5] == 0x79 then Reply.Busy else Accepted)
  {
    hide Receive, From;
    if Receive(0xFF, arrived).code > 0 {
      KeptFrameIsWhole(0xFF, arrived);
      AddressByValue(Receive(0xFF, arrived).frame[1], addr);
    }
  }

  /** With the reply flag set or without it: both are taken, and nothing else. */
  lemma ReplyFlagIsIgnored(addr: byte, arrived: bytes, now: Timespec)
    requires addr <= 0x7F
    ensures var o := Receive(0xFF, arrived); var r, f := KindOf(addr, o, now), o.frame;
            o.code > 0 ==>
              && |f| >= 6
              && (r != Stray <==> f[1] as nat == addr as nat || f[1] as nat == addr as nat + 128)
  {
    hide Receive, KindOf;
    ReplyByValue(addr, arrived, now);
    ByteIsSmall(addr);
    if Receive(0xFF, arrived).code > 0 {
      TopBit(Receive(0xFF, arrived).frame[1] as nat, addr as nat);
    }
  }

  lemma ByteIsSmall(b: byte)
    ensures b <= 0x7F ==> b as nat < 128
  {
  }

  lemma TopBit(x: nat, a: nat)
    requires x < 256 && a < 128
    ensures x % 128 == a <==> x == a || x == a + 128
  {
  }

  /** Enabled at every moment of the trace from a given length on. */
  ghost predicate SteadySince(log: Trace, from: nat) {
    forall k :: from <= k <= |log| ==> Run(log[..k]).Some? && Run(log[..k]).value.enabled
  }

  /** Enabled at some moment of the trace from a given length on. */
  ghost predicate SeenEnabled(log: Trace, from: nat) {
    exists k :: from <= k <= |log| && Run(log[..k]).Some? && Run(log[..k]).value.enabled
  }

  lemma SeenStays(a: Trace, b: Trace, from: nat)
    requires a <= b && SeenEnabled(a, from)
    ensures SeenEnabled(b, from)
  {
    var k :| from <= k <= |a| && Run(a[..k]).Some? && Run(a[..k]).value.enabled;
    assert a[..k] == b[..k];
  }

  lemma SteadyShrinks(a: Trace, b: Trace, from: nat)
    requires a <= b && SteadySince(b, from)
    ensures SteadySince(a, from)
  {
    forall k | from <= k <= |a|
      ensures Run(a[..k]).Some? && Run(a[..k]).value.enabled
    {
      assert a[..k] == b[..k];
    }
  }

  /** The bus thread is with none of the slaves. */
  ghost predicate AllRest(logs: seq<Trace>) {
    forall k :: 0 <= k < |logs| ==> Run(logs[k]).Some? && Run(logs[k]).value.place == Idle
  }

  class Bus {
    const proto: Protocol
    var slaves: seq<OsdpSlave>
    var cursor: nat
    var inbox: seq<MqttMessage> // what the broker has yet to deliver
    var crcCount: nat
    var timeoutCount: nat

    constructor (proto: Protocol, inbox: seq<MqttMessage>)
      requires proto.Valid() && proto.config.timeout >= 0 && proto.myAddr == 0xFF
      requires FitsIn(proto.config, POLL)
      requires forall m :: m in inbox && m.Outgoing? ==> FitsIn(proto.config, m.payload)
      ensures Valid() && slaves == [] && this.proto == proto
    {
      this.proto, this.inbox := proto, inbox;
      slaves, cursor := [], 0;
      crcCount, timeoutCount := 0, 0;
    }

    /** add_slave: a static slave, and the cursor back at the start. */
    method AddSlave(addr: byte)
      requires Valid()
      modifies this`slaves, this`cursor
      ensures Valid() && cursor == 0 && |slaves| == |old(slaves)| + 1 && slaves[..|slaves|-1] == old(slaves)
      ensures var s := slaves[|slaves|-1]; fresh(s) && s.addr == addr && s.place == Idle && s.msglist == []
    {
      var s := new OsdpSlave(addr);
      slaves, cursor := slaves + [s], 0;
    }

    /** A payload that leaves room for its envelope in the output buffer. */
    static predicate FitsIn(c: SerialConfig, payload: bytes) {
      Max(c.lead, 0) + |payload| + 7 + Max(c.trail, 0) <= BUFFER_SIZE
    }

    ghost predicate Valid()
      reads this`slaves, this`cursor, this`inbox, proto`myAddr, slaves
    {
      && proto.Valid() && proto.config.timeout >= 0 && proto.myAddr == 0xFF
      && FitsIn(proto.config, POLL)
      && (slaves == [] || cursor < |slaves|)
      && (forall i, j :: 0 <= i < j < |slaves| ==> slaves[i] != slaves[j])
      && (forall s :: s in slaves ==> SlaveOk(s))
      && (forall m :: m in inbox && m.Outgoing? ==> FitsIn(proto.config, m.payload))
    }

    ghost predicate SlaveOk(s: OsdpSlave)
      reads s
    {
      s.Valid() && forall m :: m in s.msglist ==> FitsIn(proto.config, m)
    }

    /** The histories of the slaves. */
    ghost function Logs(): (r: seq<Trace>)
      reads this`slaves, slaves
      ensures |r| == |slaves| && forall j :: 0 <= j < |slaves| ==> r[j] == slaves[j].log
    {
      var ss := slaves;
      seq(|ss|, j requires 0 <= j < |ss| reads ss => ss[j].log)
    }

    // -------------------------------------------------------------- the MQTT thread

    /** What a message adds to the history of the slave it is for: a disabled slave takes no commands. */
    static function Delivery(enabled: bool, m: MqttMessage): Trace {
      match m
      case ControlFor(_, cmd) => [Control(cmd)]
      case Outgoing(_, payload) => if enabled then [Event.Push(payload)] else []
    }

    method MessageForSlave(s: OsdpSlave, m: MqttMessage)
      requires Valid() && s in slaves && (m.Outgoing? ==> FitsIn(proto.config, m.payload))
      modifies s`msglist, s`enabled, s`statuses, s`log, s`place
      ensures SlaveOk(s) && s.place == old(s.place)
      ensures s.log == old(s.log) + Delivery(old(s.enabled), m)
      ensures s.enabled == if m.Outgoing? || m.cmd == Unknown then old(s.enabled) else m.cmd == Enable
      ensures s.msglist == old(s.msglist) + if m.Outgoing? && old(s.enabled) then [m.payload] else []
    {
      assert SlaveOk(s);
      hide Run;
      ghost var before := s.State();
      match m
      case ControlFor(_, cmd) =>
        var o := s.Offline();
        if cmd == Disable {
          s.enabled := false;
        } else if cmd == Enable {
          s.enabled := true;
          o := true;
        }
        s.DeclareOnline(o);
        s.Note(before, Control(cmd), s.place);
      case Outgoing(_, payload) =>
        if s.enabled {
          s.Push(payload);
          s.Note(before, Event.Push(payload), s.place);
        }
    }

    /** What a delivery makes of a history. */
    lemma DeliveryByValue(log: Trace, enabled: bool, m: MqttMessage)
      ensures var after := log + Delivery(enabled, m);
              && Removed(after) == Removed(log)
              && Pushed(after) == Pushed(log) + (if m.Outgoing? && enabled then [m.payload] else [])
              && LastSwitch(after) == if m.ControlFor? && m.cmd != Unknown then Some(m.cmd) else LastSwitch(log)
    {
      if Delivery(enabled, m) != [] {
        var e := Delivery(enabled, m)[0];
        assert Delivery(enabled, m) == [e];
        assert (log + [e])[..|log|] == log;
      } else {
        assert log + [] == log;
      }
    }

    /** The first slave at the address gets the message, and nobody else is touched. */
    method MessageCallback(m: MqttMessage) returns (ghost to: nat)
      requires Valid() && (m.Outgoing? ==> FitsIn(proto.config, m.payload))
      modifies slaves
      ensures Valid() && AllInterleaved(old(Logs()), Logs())
      ensures to <= |slaves| && (to < |slaves| ==> slaves[to].addr as nat == m.addr)
      ensures forall j :: 0 <= j < to ==> slaves[j].addr as nat != m.addr
      ensures forall j :: 0 <= j < |slaves| ==>
                slaves[j].log == old(slaves[j].log) + if j == to then Delivery(old(slaves[j].enabled), m) else []
      ensures forall j :: 0 <= j < |slaves| ==>
                slaves[j].msglist == old(slaves[j].msglist) +
                  if j == to && m.Outgoing? && old(slaves[j].enabled) then [m.payload] else []
      ensures forall j :: 0 <= j < |slaves| ==>
                slaves[j].enabled ==
                  if j == to && m.ControlFor? && m.cmd != Unknown then m.cmd == Enable else old(slaves[j].enabled)
      ensures forall s :: s in slaves ==> |s.msglist| <= |old(s.msglist)| + 1
    {
      hide Run;
      var i := 0;
      while i < |slaves|
        invariant 0 <= i <= |slaves|
        invariant forall j :: 0 <= j < i ==> slaves[j].addr as nat != m.addr
      {
        if slaves[i].addr as nat == m.addr {
          MessageForSlave(slaves[i], m);
          return i;
        }
        i := i + 1;
      }
      to := i;
    }

    /** One message is delivered. */
    method DeliverOne(ghost first: seq<Trace>)
      requires Valid() && AllInterleaved(first, Logs()) && inbox != []
      modifies this`inbox, slaves
      ensures Valid() && AllInterleaved(first, Logs()) && inbox == old(inbox)[1..]
      ensures forall s :: s in slaves ==> |s.msglist| <= |old(s.msglist)| + 1
    {
      hide Run, Interleaved, Bus.Delivery;
      var m := inbox[0];
      inbox := inbox[1..];
      ghost var before := Logs();
      ghost var to := MessageCallback(m);
      AllInterleavedAgain(first, before, Logs());
    }

    /** The MQTT thread runs for a while: some of the messages waiting are delivered, in order. */
    method Mqtt()
      requires Valid()
      modifies this`inbox, slaves
      ensures Valid() && AllInterleaved(old(Logs()), Logs())
      ensures |inbox| <= |old(inbox)| && inbox == old(inbox)[|old(inbox)|-|inbox|..]
      ensures forall s :: s in slaves ==>
                |s.msglist| + |inbox| <= |old(s.msglist)| + |old(inbox)|
    {
      hide Run, AllInterleaved, Bus.Valid;
      var k: nat :| k <= |inbox|;
      ghost var first := Logs();
      AllInterleavedSelf(first);
      while k > 0
        invariant k <= |inbox| <= |old(inbox)| && inbox == old(inbox)[|old(inbox)|-|inbox|..]
        invariant Valid() && AllInterleaved(first, Logs())
        invariant forall s :: s in slaves ==>
                    |s.msglist| + |inbox| <= |old(s.msglist)| + |old(inbox)|
      {
        DeliverOne(first);
        k := k - 1;
      }
    }

    lemma AllInterleavedSelf(a: seq<Trace>)
      ensures AllInterleaved(a, a)
    {
    }

    // -------------------------------------------------------------- choosing a slave

    /** The slaves eligible at every moment since their logs had the given lengths. */
    ghost function Steady(since: seq<Trace>): (r: set<nat>)
      requires |since| == |slaves|
      reads this`slaves, slaves
      ensures forall j :: j in r ==> j < |slaves|
    {
      set j: nat | j < |slaves| && slaves[j].Defined() && SteadySince(slaves[j].log, |since[j]|)
    }

    /** No slave eligible throughout lies within d places of the cursor. */
    ghost predicate NonePassed(since: seq<Trace>, d: nat)
      requires |since| == |slaves| && cursor < |slaves|
      reads this`slaves, this`cursor, slaves
    {
      forall j :: j in Steady(since) && j < |slaves| ==> Distance(cursor, j, |slaves|) > d
    }

    /** Defined, and seen enabled since the logs had the given lengths. */
    ghost predicate Chosen(a: nat, since: seq<Trace>)
      requires |since| == |slaves|
      reads this`slaves, slaves
    {
      a < |slaves| && slaves[a].Defined() && SeenEnabled(slaves[a].log, |since[a]|)
    }

    lemma EnabledNow(a: nat, since: seq<Trace>)
      requires Valid() && a < |slaves| && |since| == |slaves| && since[a] <= slaves[a].log
      requires slaves[a].Defined() && slaves[a].enabled
      ensures Chosen(a, since)
    {
      assert SlaveOk(slaves[a]);
      assert slaves[a].log[..|slaves[a].log|] == slaves[a].log;
    }

    /** The search has come d places from the cursor, and maybe found what it wants there. */
    ghost predicate Searched(since: seq<Trace>, a: nat, d: nat, found: bool)
      requires |since| == |slaves| && cursor < |slaves|
      reads this`slaves, this`cursor, slaves
    {
      && d <= |slaves| && a == After(cursor, d, |slaves|)
      && (if found then d > 0 else d < |slaves|)
      && NonePassed(since, if found then d - 1 else d)
      && (found && a != cursor ==> Chosen(a, since))
    }

    /** Time passes before a flag is looked at; nobody becomes eligible throughout by it. */
    method Interval(ghost since: seq<Trace>, ghost a: nat, ghost d: nat)
      requires Valid() && AllInterleaved(since, Logs()) && cursor < |slaves| && Searched(since, a, d, false)
      modifies this`inbox, slaves
      ensures Valid() && AllInterleaved(since, Logs()) && Searched(since, a, d, false)
    {
      hide Run, SteadySince, After, Distance, Bus.Valid, Bus.Steady, Bus.Chosen, Interleaved;
      ghost var before := Logs();
      ghost var steady := Steady(since);
      SteadyAt(since);
      Mqtt();
      SteadyBy(since, before, steady);
      AllInterleavedAgain(since, before, Logs());
    }

    /** The slaves eligible throughout, by the histories. */
    lemma SteadyAt(since: seq<Trace>)
      requires |since| == |slaves|
      ensures forall j: nat :: j in Steady(since) <==>
                j < |slaves| && slaves[j].Defined() && SteadySince(Logs()[j], |since[j]|)
    {
    }

    lemma SteadyBy(since: seq<Trace>, before: seq<Trace>, steady: set<nat>)
      requires AllInterleaved(before, Logs()) && |since| == |slaves|
      requires forall j: nat :: j in steady <==>
                 j < |slaves| && slaves[j].Defined() && SteadySince(before[j], |since[j]|)
      ensures Steady(since) <= steady
    {
      hide Run, SteadySince;
      forall j | j in Steady(since)
        ensures j in steady
      {
        assert Interleaved(before[j], Logs()[j]);
        SteadyShrinks(before[j], slaves[j].log, |since[j]|);
      }
    }

    /** One turn of the search: some time passes, and the next slave is looked at. */
    method Look(at: nat, ghost d: nat, ghost since: seq<Trace>) returns (a: nat, found: bool)
      requires Valid() && AllInterleaved(since, Logs()) && cursor < |slaves|
      requires Searched(since, at, d, false)
      modifies this`inbox, slaves
      ensures Valid() && AllInterleaved(since, Logs())
      ensures Searched(since, a, d + 1, found)
    {
      hide Run, After, Distance, AllInterleaved, Bus.Steady, Bus.Chosen, Bus.Searched, Bus.Valid;
      Interval(since, at, d);
      LookBounds(at, d, since);
      a := at + 1;
      if a == |slaves| {
        a := 0;
      }
      if a == cursor || (slaves[a].Defined() && slaves[a].enabled) {
        found := true;
        FoundHere(at, d, since, a);
      } else {
        found := false;
        NotHere(at, d, since, a);
      }
    }

    lemma LookBounds(at: nat, d: nat, since: seq<Trace>)
      requires AllInterleaved(since, Logs()) && cursor < |slaves| && Searched(since, at, d, false)
      ensures at < |slaves| && d < |slaves|
      ensures After(cursor, d + 1, |slaves|) == if at + 1 == |slaves| then 0 else at + 1
      ensures Distance(cursor, After(cursor, d + 1, |slaves|), |slaves|) == d + 1
    {
      hide Run, Bus.Steady;
      AfterNext(cursor, d + 1, |slaves|);
      DistanceIsOnly(cursor, d + 1, |slaves|);
    }

    lemma FoundHere(at: nat, d: nat, since: seq<Trace>, a: nat)
      requires Valid() && AllInterleaved(since, Logs()) && cursor < |slaves|
      requires Searched(since, at, d, false) && a == if at + 1 == |slaves| then 0 else at + 1
      requires a < |slaves| && (a == cursor || (slaves[a].Defined() && slaves[a].enabled))
      ensures Searched(since, a, d + 1, true)
    {
      hide Run, SteadySince, SeenEnabled, AllInterleaved, After, Distance, Bus.Steady, Bus.Chosen, Bus.SlaveOk;
      LookBounds(at, d, since);
      GrownAt(since, a);
      if a != cursor {
        EnabledNow(a, since);
      }
    }

    lemma NotHere(at: nat, d: nat, since: seq<Trace>, a: nat)
      requires Valid() && AllInterleaved(since, Logs()) && cursor < |slaves|
      requires Searched(since, at, d, false) && a == if at + 1 == |slaves| then 0 else at + 1
      requires a < |slaves| && a != cursor && !(slaves[a].Defined() && slaves[a].enabled)
      ensures Searched(since, a, d + 1, false)
    {
      hide Run, SteadySince, SeenEnabled, AllInterleaved, After, Distance, Bus.Steady, Bus.Chosen, Bus.SlaveOk;
      LookBounds(at, d, since);
      AfterNext(cursor, d + 1, |slaves|);
      GrownAt(since, a);
      NotSteady(slaves[a], since, a);
    }

    /** Move the cursor to the next eligible slave, or all the way round. */
    method Select()
      requires Valid() && slaves != []
      modifies this`cursor, this`inbox, slaves
      ensures Valid() && AllInterleaved(old(Logs()), Logs())
      ensures Turn(old(cursor), cursor, |slaves|, Steady(old(Logs())))
      ensures cursor < |slaves| && (cursor == old(cursor) || Chosen(cursor, old(Logs())))
    {
      hide Run, Bus.Steady, Bus.Chosen, Bus.Searched, Bus.Valid, After, Distance, AllInterleaved, Turn;
      ghost var first := Logs();
      SearchBegins(first);
      var a, found := cursor, false;
      ghost var d := 0;
      while !found
        invariant Valid() && cursor == old(cursor) < |slaves| && |first| == |slaves|
        invariant AllInterleaved(first, Logs()) && Searched(first, a, d, found) && d <= |slaves|
        decreases !found, |slaves| - d
      {
        a, found := Look(a, d, first);
        d := d + 1;
        SearchBounded(first, a, d, found);
      }
      SearchEnds(first, a, d);
      MoveCursor(a);
    }

    /** Time passes between the search and the second look at the slave it stopped at. */
    method Meantime(ghost since: seq<Trace>, ghost from: nat)
      requires Valid() && AllInterleaved(since, Logs()) && cursor < |slaves|
      requires Turn(from, cursor, |slaves|, Steady(since)) && (cursor == from || Chosen(cursor, since))
      modifies this`inbox, slaves
      ensures Valid() && AllInterleaved(since, Logs())
      ensures Turn(from, cursor, |slaves|, Steady(since)) && (cursor == from || Chosen(cursor, since))
    {
      hide Run, SteadySince, SeenEnabled, Distance, Bus.Valid, Bus.Steady, Interleaved;
      ghost var before := Logs();
      ghost var steady := Steady(since);
      SteadyAt(since);
      Mqtt();
      SteadyBy(since, before, steady);
      AllInterleavedAgain(since, before, Logs());
      GrownAt(before, cursor);
      if cursor != from {
        SeenStays(before[cursor], slaves[cursor].log, |since[cursor]|);
      }
    }

    /** The search, up to the second look. */
    method Settle()
      requires Valid() && slaves != []
      modifies this`cursor, this`inbox, slaves
      ensures Valid() && AllInterleaved(old(Logs()), Logs())
      ensures Turn(old(cursor), cursor, |slaves|, Steady(old(Logs())))
      ensures cursor < |slaves| && (cursor == old(cursor) || Chosen(cursor, old(Logs())))
    {
      hide Run, Bus.Steady, Bus.Chosen, Bus.Valid, AllInterleaved, Turn;
      ghost var first, from := Logs(), cursor;
      Select();
      Meantime(first, from);
    }

    method MoveCursor(a: nat)
      requires Valid() && a < |slaves|
      modifies this`cursor
      ensures Valid() && cursor == a
    {
      cursor := a;
    }

    lemma SearchBegins(first: seq<Trace>)
      requires Valid() && slaves != [] && first == Logs()
      ensures cursor < |slaves| && AllInterleaved(first, first) && Searched(first, cursor, 0, false)
    {
      hide Run, SteadySince, Bus.SlaveOk;
      AllInterleavedSelf(first);
      AfterNext(cursor, 0, |slaves|);
    }

    lemma SearchBounded(first: seq<Trace>, a: nat, d: nat, found: bool)
      requires |first| == |slaves| && cursor < |slaves| && Searched(first, a, d, found)
      ensures d <= |slaves|
    {
    }

    lemma SearchEnds(first: seq<Trace>, a: nat, d: nat)
      requires |first| == |slaves| && cursor < |slaves| && Searched(first, a, d, true)
      ensures a < |slaves| && Turn(cursor, a, |slaves|, Steady(first)) && (a == cursor || Chosen(a, first))
    {
      hide Run, SteadySince, Bus.Steady;
      DistanceIsOnly(cursor, d, |slaves|);
    }

    lemma GrownAt(since: seq<Trace>, a: nat)
      requires AllInterleaved(since, Logs()) && a < |slaves|
      ensures |since| == |slaves| && since[a] <= slaves[a].log
    {
      assert Interleaved(since[a], Logs()[a]);
    }

    lemma NotSteady(s: OsdpSlave, since: seq<Trace>, a: nat)
      requires Valid() && a < |slaves| && s == slaves[a] && |since| == |slaves| && since[a] <= s.log
      requires !s.Defined() || !s.enabled
      ensures a !in Steady(since)
    {
      assert SlaveOk(s);
      assert s.log[..|s.log|] == s.log;
    }

    // -------------------------------------------------------------- steps on one slave

    /** What a stretch of slave_poll on slave i leaves of the histories. */
    ghost predicate Onward(first: seq<Trace>, i: nat)
      reads this`slaves, slaves
    {
      i < |slaves| && OthersInterleaved(first, Logs(), i) && first[i] <= Logs()[i]
    }

    /** The MQTT thread runs, seen from slave i. */
    method Pause(ghost first: seq<Trace>, ghost i: nat)
      requires i < |slaves| && Valid() && Onward(first, i)
      modifies this`inbox, slaves
      ensures Valid() && Onward(first, i)
      ensures MqttMoves(old(slaves[i].State()), slaves[i].State())
      ensures Call(slaves[i].log) == old(Call(slaves[i].log))
      ensures |slaves[i].msglist| + |inbox| <= |old(slaves[i].msglist)| + |old(inbox)|
    {
      hide Run, Call, Interleaved;
      ghost var before := Logs();
      ghost var s := slaves[i];
      assert s in slaves && SlaveOk(s);
      Mqtt();
      assert s in slaves && SlaveOk(s);
      InterleavedKeeps(before[i], s.log);
      StillOnward(first, before, Logs(), i);
    }

    lemma StillOnward(a: seq<Trace>, b: seq<Trace>, c: seq<Trace>, i: nat)
      requires OthersInterleaved(a, b, i) && AllInterleaved(b, c) && i < |a| && a[i] <= b[i]
      ensures OthersInterleaved(a, c, i) && a[i] <= c[i]
    {
      OthersInterleavedAgain(a, b, c, i);
      assert Interleaved(b[i], c[i]);
    }

    /** The head of the queue is purged. */
    method DropHead(i: nat, ghost first: seq<Trace>)
      requires Valid() && Onward(first, i) && slaves[i].place == Purging && slaves[i].msglist != []
      modifies slaves[i]
      ensures Valid() && Onward(first, i) && slaves[i].place == Purging
      ensures |slaves[i].msglist| < |old(slaves[i].msglist)|
      ensures slaves[i].log == old(slaves[i].log) + [Drop(old(slaves[i].msglist[0]))]
    {
      hide Run, Interleaved;
      var s := slaves[i];
      assert s in slaves && SlaveOk(s);
      ghost var before := s.State();
      ghost var msg := s.Pop();
      s.Note(before, Drop(msg), Purging);
    }

    /** Record a step of the bus thread that moves it on in the call and changes nothing else. */
    ghost method Step(i: nat, first: seq<Trace>, e: Event, to: Place)
      requires Valid() && Onward(first, i)
      requires TimeOf(e).Some? ==> Normal(TimeOf(e).value)
      requires Allowed(slaves[i].State(), e) && Next(slaves[i].State(), e) == slaves[i].State().(place := to)
      modifies slaves[i]
      ensures Valid() && Onward(first, i)
      ensures slaves[i].State() == old(slaves[i].State()).(place := to)
      ensures slaves[i].log == old(slaves[i].log) + [e]
    {
      hide Run, Next, Allowed, Interleaved;
      assert slaves[i] in slaves && SlaveOk(slaves[i]);
      slaves[i].Note(slaves[i].State(), e, to);
    }

    /** Remember when an offline slave may next be polled, if now is late enough to poll it. */
    method TickleSlave(i: nat, ghost first: seq<Trace>, now: Timespec) returns (ready: bool)
      requires Valid() && Onward(first, i) && slaves[i].place == Tickling && Normal(now)
      modifies slaves[i]
      ensures Valid() && Onward(first, i)
      ensures slaves[i].place == if ready then Sending(POLL, false) else Idle
      ensures slaves[i].log == old(slaves[i].log) + [Tickle(now)]
    {
      hide Run, Interleaved;
      var s := slaves[i];
      assert s in slaves && SlaveOk(s);
      if Before(now, s.nextAssign) {
        Step(i, first, Tickle(now), Idle);
        return false; // too early for an offline slave
      }
      ghost var before := s.State();
      s.nextAssign := now.(sec := now.sec + 5);
      s.Note(before, Tickle(now), Sending(POLL, false));
      return true;
    }

    /** The answer to a failed read: another retry, or offline. */
    method MarkFailed(i: nat, ghost first: seq<Trace>)
      requires Valid() && Onward(first, i) && slaves[i].place.Awaiting?
      modifies slaves[i]
      ensures Valid() && Onward(first, i) && slaves[i].place == Idle
      ensures slaves[i].log == old(slaves[i].log) + [Answer(Failed(OfNanos(proto.line.now)))]
    {
      hide Run, Interleaved, Next, Allowed, Slave.Mark, Slave.Declare;
      var s := slaves[i];
      assert s in slaves && SlaveOk(s);
      ghost var before := s.State();
      NextFailed(before, OfNanos(proto.line.now));
      s.Nak(proto.line);
      s.Note(before, Answer(Failed(OfNanos(proto.line.now))), Idle);
    }

    /** The answer to a NAK: the numbers start again. */
    method Renumber(i: nat, ghost first: seq<Trace>)
      requires Valid() && Onward(first, i) && slaves[i].place.Awaiting?
      modifies slaves[i]
      ensures Valid() && Onward(first, i) && slaves[i].place == Idle
      ensures slaves[i].log == old(slaves[i].log) + [Answer(Reply.Nak)]
    {
      hide Run, Interleaved;
      var s := slaves[i];
      assert s in slaves && SlaveOk(s);
      ghost var before := s.State();
      s.txseq := 0;
      s.Note(before, Answer(Reply.Nak), Idle);
    }

    /** The answer to an accepted reply. */
    method AcceptReply(i: nat, ghost first: seq<Trace>, ghost payload: bytes, sendmsg: bool)
      requires Valid() && Onward(first, i) && slaves[i].place == Awaiting(payload, sendmsg)
      modifies slaves[i]
      ensures Valid() && Onward(first, i)
      ensures slaves[i].place == if sendmsg then Popping(payload) else Idle
      ensures slaves[i].log == old(slaves[i].log) + [Answer(Accepted)]
    {
      hide Run, Interleaved, Next, Allowed, Slave.Ack, Slave.Declare;
      var s := slaves[i];
      assert s in slaves && SlaveOk(s);
      ghost var before := s.State();
      NextAccepted(before);
      s.Ack();
      s.Note(before, Answer(Accepted), if sendmsg then Popping(payload) else Idle);
    }

    /** The command has been acknowledged: off the queue with it. */
    method PopHead(i: nat, ghost first: seq<Trace>)
      requires Valid() && Onward(first, i) && slaves[i].place.Popping?
      modifies slaves[i]
      ensures Valid() && Onward(first, i) && slaves[i].place == Idle
      ensures slaves[i].log == old(slaves[i].log) + [Event.Pop(old(slaves[i].place).payload)]
    {
      hide Run, Call, Interleaved, Next, Allowed, Slave.Offline, Bus.FitsIn;
      var s := slaves[i];
      assert s in slaves && SlaveOk(s);
      HeadIsSent(s.log);
      ghost var before := s.State();
      NextPopped(before);
      ghost var msg := s.Pop();
      s.Note(before, Event.Pop(msg), Idle);
    }

    // -------------------------------------------------------------- slave_poll

    /** The clock readings in a call of slave_poll are of one moment. */
    static ghost predicate Punctual(c: Trace, now: Timespec) {
      c != [] && c[0] == Begin && forall e :: e in c && (e.Tickle? || e.Recheck?) ==> e.now == now
    }

    /** Clear out what is queued for an offline slave. */
    method PurgeSlave(i: nat, ghost first: seq<Trace>, ghost now: Timespec)
      requires i < |slaves| && Valid() && Onward(first, i) && slaves[i].place == Purging
      requires Punctual(Call(slaves[i].log), now)
      modifies this`inbox, slaves
      ensures Valid() && Onward(first, i) && slaves[i].place == Tickling
      ensures Punctual(Call(slaves[i].log), now)
    {
      hide Run, Call, Bus.Onward, Bus.SlaveOk;
      while slaves[i].msglist != []
        invariant Valid() && Onward(first, i) && slaves[i].place == Purging
        invariant Punctual(Call(slaves[i].log), now)
        decreases |slaves[i].msglist| + |inbox|
      {
        Pause(first, i);
        ghost var log, msg := slaves[i].log, slaves[i].msglist[0];
        DropHead(i, first);
        CallGrows(log, Drop(msg));
        Pause(first, i);
      }
      CallGrows(slaves[i].log, Purged);
      Step(i, first, Purged, Tickling);
    }

    method OfflineBranch(i: nat, ghost first: seq<Trace>) returns (ready: bool)
      requires i < |slaves| && Valid() && Onward(first, i) && slaves[i].place == Purging
      requires Punctual(Call(slaves[i].log), OfNanos(proto.line.now))
      modifies this`inbox, slaves
      ensures Valid() && Onward(first, i)
      ensures slaves[i].place == if ready then Sending(POLL, false) else Idle
      ensures Punctual(Call(slaves[i].log), OfNanos(proto.line.now))
      ensures ready || Early(slaves[i], OfNanos(proto.line.now))
      ensures FitsIn(proto.config, POLL)
    {
      hide Run, Call, Bus.Onward, Bus.SlaveOk, Next;
      Pause(first, i);
      PurgeSlave(i, first, OfNanos(proto.line.now));
      Pause(first, i);
      var now := proto.line.Gettime();
      ghost var log := slaves[i].log;
      CallGrows(log, Tickle(now));
      ready := TickleSlave(i, first, now);
      if !ready {
        PutOff(slaves[i], log, Tickle(now), proto.line.now);
      }
    }

    /**
      The call found that it was too early to poll the slave: less than five seconds since it was
      last polled offline, or less than ten milliseconds since its last failure.
     */
    static ghost predicate Early(s: OsdpSlave, now: Timespec)
      reads s
    {
      var c := Call(s.log);
      && Punctual(c, now) && s.place == Idle
      && if c[|c|-1].Tickle? then
           var p := OfflinePolls(s.log);
           p != [] && Nanos(now) < p[|p|-1] + 5_000_000_000
         else
           && c[|c|-1].Recheck? && LastFailure(s.log).Some?
           && Nanos(now) < Nanos(LastFailure(s.log).value) + 10_000_000
    }

    /** A slave put off after a look at the clock had been polled or had failed too short a time ago. */
    lemma PutOff(s: OsdpSlave, log: Trace, e: Event, t: nat)
      requires Valid() && s in slaves && s.place == Idle && s.log == log + [e]
      requires e == Tickle(OfNanos(t)) || e == Recheck(OfNanos(t))
      requires Punctual(Call(s.log), OfNanos(t))
      ensures Early(s, OfNanos(t))
    {
      assert SlaveOk(s);
      hide Run, Call, Normal, Nanos, OfNanos;
      CallGrows(log, e);
      assert s.log[..|log|] == log && s.log[..|log|+1] == s.log && s.log[|log|] == e;
      assert Nanos(OfNanos(t)) == t;
      if e.Tickle? {
        TickleGoesAhead(s.log, |log|);
        assert OfflinePolls(s.log) == OfflinePolls(log);
      } else {
        RetryGoesAhead(s.log, |log|);
        assert LastFailure(s.log) == LastFailure(log);
      }
    }

    method OnlineBranch(i: nat, ghost first: seq<Trace>) returns (ready: bool, payload: bytes, sendmsg: bool)
      requires i < |slaves| && Valid() && Onward(first, i)
      requires slaves[i].place == if slaves[i].retry > 0 then Retrying else Choosing
      requires Punctual(Call(slaves[i].log), OfNanos(proto.line.now))
      modifies this`inbox, slaves
      ensures Valid() && Onward(first, i)
      ensures slaves[i].place == if ready then Sending(payload, sendmsg) else Idle
      ensures Punctual(Call(slaves[i].log), OfNanos(proto.line.now))
      ensures ready || Early(slaves[i], OfNanos(proto.line.now))
      ensures ready ==> FitsIn(proto.config, payload)
    {
      hide Run, Call, Bus.Onward, Bus.Valid, Bus.SlaveOk, Bus.FitsIn;
      payload, sendmsg := POLL, false;
      if slaves[i].retry > 0 {
        // The last poll went unanswered.
        var due := RetryDue(i, first);
        if !due {
          return false, payload, sendmsg;
        }
      }
      Pause(first, i);
      ready := true;
      PayloadsFit(slaves[i]);
      if slaves[i].msglist != [] {
        payload, sendmsg := slaves[i].msglist[0], true;
      }
      CallGrows(slaves[i].log, Choose);
      Step(i, first, Choose, Sending(payload, sendmsg));
    }

    lemma PayloadsFit(s: OsdpSlave)
      requires Valid() && s in slaves
      ensures FitsIn(proto.config, POLL) && forall m :: m in s.msglist ==> FitsIn(proto.config, m)
    {
      assert SlaveOk(s);
    }

    /** Is it time to retry? */
    method RetryDue(i: nat, ghost first: seq<Trace>) returns (due: bool)
      requires i < |slaves| && Valid() && Onward(first, i) && slaves[i].place == Retrying
      requires Punctual(Call(slaves[i].log), OfNanos(proto.line.now))
      modifies this`inbox, slaves
      ensures Valid() && Onward(first, i) && slaves[i].place == if due then Choosing else Idle
      ensures Punctual(Call(slaves[i].log), OfNanos(proto.line.now))
      ensures due || Early(slaves[i], OfNanos(proto.line.now))
    {
      hide Run, Call, Bus.Onward, Bus.Valid, Bus.SlaveOk;
      Pause(first, i);
      RetryTimeKnown(slaves[i]);
      var now := proto.line.Gettime();
      ghost var log := slaves[i].log;
      CallGrows(log, Recheck(now));
      due := !Before(now, slaves[i].nextPoll.value);
      Step(i, first, Recheck(now), if due then Choosing else Idle);
      if !due {
        PutOff(slaves[i], log, Recheck(now), proto.line.now);
      }
    }

    lemma RetryTimeKnown(s: OsdpSlave)
      requires s in slaves && Valid() && s.place == Retrying
      ensures s.nextPoll.Some?
    {
      assert SlaveOk(s);
      RetryTimeWritten(s.log);
    }

    /** Stale input is dropped, and one frame goes onto the line. */
    method SendFrame(addr: byte, seqno: nat, payload: bytes)
      requires Valid() && FitsIn(proto.config, payload) && seqno <= 3
      modifies proto.line, proto.outBuffer, proto`outLen, proto`nextWrite
      ensures Valid() && proto.line.rx == []
      ensures proto.line.tx == old(proto.line.tx) +
                Padded(proto.config.lead, proto.config.trail, Encode(addr, seqno as byte, payload))
    {
      hide Run, Encode, Padded, Bus.SlaveOk;
      proto.line.FlushInput();
      proto.WriteCook(addr, seqno as byte, payload);
    }

    /** Whatever comes back, read and checked. */
    method FetchReply() returns (size: int, ghost arrived: bytes)
      requires Valid() && proto.line.rx == []
      modifies proto.line, proto.inBuffer, proto`deadline, proto`nextWrite
      ensures Valid() && proto.line.tx == old(proto.line.tx)
      ensures proto.Valid() && Fetched(size, arrived)
    {
      hide Run, Receive, Bus.SlaveOk;
      arrived := proto.line.Arrive();
      assert [] + arrived == arrived;
      size := proto.ReadCook();
    }

    /** The result and the buffer are what reading the bytes that arrived must give. */
    ghost predicate Fetched(size: int, arrived: bytes)
      requires proto.Valid()
      reads proto.inBuffer
    {
      var o := Receive(0xFF, arrived);
      size == o.code && proto.inBuffer[..|o.frame|] == o.frame
    }

    /** The payload chosen goes out, under the slave's number. */
    method SendPayload(i: nat, ghost first: seq<Trace>, payload: bytes, sendmsg: bool)
      requires i < |slaves| && Valid() && Onward(first, i)
      requires slaves[i].place == Sending(payload, sendmsg) && FitsIn(proto.config, payload)
      modifies this`inbox, slaves, proto.line, proto.outBuffer, proto`outLen, proto`nextWrite
      ensures Valid() && Onward(first, i) && slaves[i].place == Awaiting(payload, sendmsg)
      ensures slaves[i].txseq <= 3 && proto.line.rx == []
      ensures Call(slaves[i].log) == old(Call(slaves[i].log)) + [Transmit(slaves[i].txseq, payload, sendmsg)]
      ensures proto.line.tx == old(proto.line.tx) +
                Padded(proto.config.lead, proto.config.trail,
                       Encode(slaves[i].addr, slaves[i].txseq as byte, payload))
    {
      hide Run, Call, Bus.Onward, Encode, Padded, Bus.Valid, Bus.FitsIn;
      Pause(first, i);
      NumbersSmall(slaves[i]);
      SendFrame(slaves[i].addr, slaves[i].txseq, payload);
      CallGrows(slaves[i].log, Transmit(slaves[i].txseq, payload, sendmsg));
      Step(i, first, Transmit(slaves[i].txseq, payload, sendmsg), Awaiting(payload, sendmsg));
    }

    /** Send the payload chosen and read the reply. */
    method Transact(i: nat, ghost first: seq<Trace>, payload: bytes, sendmsg: bool)
      returns (size: int, ghost arrived: bytes)
      requires i < |slaves| && Valid() && Onward(first, i)
      requires slaves[i].place == Sending(payload, sendmsg) && FitsIn(proto.config, payload)
      modifies this`inbox, slaves, proto.line, proto.inBuffer, proto.outBuffer
      modifies proto`outLen, proto`nextWrite, proto`deadline
      ensures Valid() && Onward(first, i) && slaves[i].place == Awaiting(payload, sendmsg)
      ensures slaves[i].txseq <= 3
      ensures Call(slaves[i].log) == old(Call(slaves[i].log)) + [Transmit(slaves[i].txseq, payload, sendmsg)]
      ensures proto.line.tx == old(proto.line.tx) +
                Padded(proto.config.lead, proto.config.trail,
                       Encode(slaves[i].addr, slaves[i].txseq as byte, payload))
      ensures proto.Valid() && Fetched(size, arrived)
    {
      hide Run, Call, Bus.Onward, Encode, Padded, Bus.Valid, Bus.Fetched, Bus.FitsIn;
      ProtoOk();
      SendPayload(i, first, payload, sendmsg);
      Pause(first, i);
      size, arrived := FetchReply();
      Pause(first, i);
    }

    lemma ProtoOk()
      requires Valid()
      ensures proto.Valid()
    {
    }

    lemma NumbersSmall(s: OsdpSlave)
      requires Valid() && s in slaves
      ensures s.txseq <= 3
    {
      assert SlaveOk(s);
      SequenceInv(s.log);
    }

    /** What the bus thread does with the reply; the steps it then adds to the call. */
    static function Aftermath(r: Reply, payload: bytes, sendmsg: bool): Trace {
      [Answer(r)] + if r.Accepted? && sendmsg then [Event.Pop(payload)] else []
    }

    method HandleReply(i: nat, ghost first: seq<Trace>, size: int, ghost arrived: bytes,
                       ghost payload: bytes, sendmsg: bool)
      requires i < |slaves| && Valid() && Onward(first, i)
      requires slaves[i].place == Awaiting(payload, sendmsg)
      requires Fetched(size, arrived)
      modifies this`inbox, this`crcCount, this`timeoutCount, slaves
      ensures Valid() && Onward(first, i) && slaves[i].place == Idle
      ensures var r := KindOf(slaves[i].addr, Receive(0xFF, arrived), OfNanos(proto.line.now));
              Call(slaves[i].log) == old(Call(slaves[i].log)) + Aftermath(r, payload, sendmsg)
      ensures Scored(old(crcCount), old(timeoutCount), arrived)
    {
      hide Run, Call, Bus.Onward, Receive, Bus.SlaveOk, Bus.Valid, Bus.Fetched, KindOf, From;
      ProtoOk();
      FetchedCode(size, arrived);
      if size > 0 {
        ReplySeen(size, arrived, slaves[i].addr);
        HandleGoodReply(i, first, KindOf(slaves[i].addr, Receive(0xFF, arrived), Timespec(0, 0)), payload, sendmsg);
      } else {
        ghost var log := slaves[i].log;
        ReplyFailed(size, arrived, slaves[i].addr);
        MarkFailed(i, first);
        CallGrows(log, Answer(Failed(OfNanos(proto.line.now))));
        if size == BADCHECK {
          crcCount := crcCount + 1;
        } else if size == TIMEOUT {
          timeoutCount := timeoutCount + 1;
        }
      }
    }

    /** The two counters count exactly the reads with a bad check and those that timed out. */
    ghost predicate Scored(crcs: nat, timeouts: nat, arrived: bytes)
      reads this`crcCount, this`timeoutCount
    {
      var code := Receive(0xFF, arrived).code;
      && crcCount == crcs + (if code == BADCHECK then 1 else 0)
      && timeoutCount == timeouts + (if code == TIMEOUT then 1 else 0)
    }

    lemma FetchedCode(size: int, arrived: bytes)
      requires proto.Valid() && Fetched(size, arrived)
      ensures size == Receive(0xFF, arrived).code
    {
      hide Receive;
    }

    lemma ReplyFailed(size: int, arrived: bytes, addr: byte)
      requires proto.Valid() && Fetched(size, arrived) && size <= 0
      ensures forall now :: KindOf(addr, Receive(0xFF, arrived), now) == Failed(now)
    {
    }

    /** The address and function bytes in the buffer are those of the frame received. */
    lemma ReplySeen(size: int, arrived: bytes, addr: byte)
      requires proto.Valid() && Fetched(size, arrived) && size > 0
      ensures forall now :: KindOf(addr, Receive(0xFF, arrived), now) ==
                if !From(proto.inBuffer[1], addr) then Stray
                else if proto.inBuffer[5] == OSDP_NAK then Reply.Nak
                else if proto.inBuffer[5] == OSDP_BUSY then Reply.Busy
                else Accepted
    {
      KeptFrameIsWhole(0xFF, arrived);
      hide Receive;
      var f := Receive(0xFF, arrived).frame;
      assert proto.inBuffer[1] == f[1] && proto.inBuffer[5] == f[5];
    }

    method HandleGoodReply(i: nat, ghost first: seq<Trace>, ghost r: Reply,
                           ghost payload: bytes, sendmsg: bool)
      requires i < |slaves| && Valid() && Onward(first, i) && proto.Valid()
      requires slaves[i].place == Awaiting(payload, sendmsg)
      requires r == if !From(proto.inBuffer[1], slaves[i].addr) then Stray
                    else if proto.inBuffer[5] == OSDP_NAK then Reply.Nak
                    else if proto.inBuffer[5] == OSDP_BUSY then Reply.Busy
                    else Accepted
      modifies this`inbox, slaves
      ensures Valid() && Onward(first, i) && slaves[i].place == Idle
      ensures Call(slaves[i].log) == old(Call(slaves[i].log)) + Aftermath(r, payload, sendmsg)
    {
      hide Run, Call, Bus.Onward, Receive, Bus.SlaveOk, Bus.Valid, Bus.Fetched, KindOf, From, Next;
      if !From(proto.inBuffer[1], slaves[i].addr) {
        Disregard(i, first, Stray); // received from the wrong address
        return;
      }
      if proto.inBuffer[5] == OSDP_NAK || proto.inBuffer[5] == OSDP_BUSY {
        if proto.inBuffer[5] == OSDP_NAK {
          ghost var log := slaves[i].log;
          Renumber(i, first);
          CallGrows(log, Answer(Reply.Nak));
        } else {
          Disregard(i, first, Reply.Busy);
        }
        return;
      }
      Acknowledge(i, first, payload, sendmsg);
    }

    /** Not an acknowledgement, and nothing to be done about it. */
    ghost method Disregard(i: nat, first: seq<Trace>, r: Reply)
      requires i < |slaves| && Valid() && Onward(first, i) && slaves[i].place.Awaiting?
      requires r.Stray? || r.Busy?
      modifies slaves
      ensures Valid() && Onward(first, i) && slaves[i].place == Idle
      ensures Call(slaves[i].log) == old(Call(slaves[i].log)) + [Answer(r)]
    {
      hide Run, Call, Bus.Onward, Bus.SlaveOk, Bus.Valid;
      ghost var log := slaves[i].log;
      Step(i, first, Answer(r), Idle);
      CallGrows(log, Answer(r));
    }

    /** The slave took it: on to the next number, and the command leaves the queue. */
    method Acknowledge(i: nat, ghost first: seq<Trace>, ghost payload: bytes, sendmsg: bool)
      requires i < |slaves| && Valid() && Onward(first, i)
      requires slaves[i].place == Awaiting(payload, sendmsg)
      modifies this`inbox, slaves
      ensures Valid() && Onward(first, i) && slaves[i].place == Idle
      ensures Call(slaves[i].log) == old(Call(slaves[i].log)) + Aftermath(Accepted, payload, sendmsg)
    {
      hide Run, Call, Bus.Onward, Bus.SlaveOk, Bus.Valid;
      ghost var log := slaves[i].log;
      AcceptReply(i, first, payload, sendmsg);
      CallGrows(log, Answer(Accepted));
      Pause(first, i);
      if sendmsg {
        ghost var mid := slaves[i].log;
        PopHead(i, first);
        CallGrows(mid, Event.Pop(payload));
      }
    }

    ghost predicate AllIdle()
      reads this`slaves, slaves
    {
      forall s :: s in slaves ==> s.place == Idle
    }

    lemma StayIdle(first: seq<Trace>, i: nat)
      requires Valid() && OthersInterleaved(first, Logs(), i)
      requires AllRest(first)
      ensures forall k :: 0 <= k < |slaves| && k != i ==> slaves[k].place == Idle
    {
      hide Run, Interleaved;
      forall k | 0 <= k < |slaves| && k != i
        ensures slaves[k].place == Idle
      {
        assert slaves[k] in slaves && SlaveOk(slaves[k]);
        InterleavedKeeps(first[k], slaves[k].log);
      }
    }

    lemma IdleLogs()
      requires Valid() && AllIdle()
      ensures AllRest(Logs())
    {
      forall k | 0 <= k < |slaves|
        ensures Run(Logs()[k]).Some? && Run(Logs()[k]).value.place == Idle
      {
        assert slaves[k] in slaves && SlaveOk(slaves[k]);
      }
    }

    /**
      A call that made an exchange on the line: it began, it read the clock of one moment, it sent
      the payload under the number, and what came back decided the rest.
     */
    static ghost predicate Conducted(s: OsdpSlave, now: Timespec, payload: bytes, sendmsg: bool, seqno: nat, r: Reply)
      reads s
    {
      var tail := [Transmit(seqno, payload, sendmsg)] + Aftermath(r, payload, sendmsg);
      var c := Call(s.log);
      |c| >= |tail| && c[|c| - |tail|..] == tail && Punctual(c[..|c| - |tail|], now)
    }

    lemma ConductedBy(s: OsdpSlave, now: Timespec, before: Trace, payload: bytes, sendmsg: bool, seqno: nat, r: Reply)
      requires Punctual(before, now)
      requires Call(s.log) == before + [Transmit(seqno, payload, sendmsg)] + Aftermath(r, payload, sendmsg)
      ensures Conducted(s, now, payload, sendmsg, seqno, r)
    {
      hide Call, Punctual;
      var tail := [Transmit(seqno, payload, sendmsg)] + Aftermath(r, payload, sendmsg);
      assert Call(s.log) == before + tail;
    }

    /**
      What an exchange leaves on the line and in the history of slave i: one frame with the payload
      under the slave's number added to what had been sent, and the rest of the call as the bytes
      that arrived decide.
     */
    ghost predicate Exchanged(i: nat, sent: bytes, now: Timespec, payload: bytes, sendmsg: bool,
                              seqno: nat, arrived: bytes)
      requires i < |slaves| && seqno <= 3
      reads this`slaves, slaves, proto.line
    {
      var s := slaves[i];
      var r := KindOf(s.addr, Receive(0xFF, arrived), OfNanos(proto.line.now));
      && Conducted(s, now, payload, sendmsg, seqno, r)
      && proto.line.tx == sent +
           Padded(proto.config.lead, proto.config.trail, Encode(s.addr, seqno as byte, payload))
    }

    static ghost predicate EnabledAt(log: Trace) { Run(log).Some? && Run(log).value.enabled }

    /** Decide whether to poll, and with what. */
    method Prepare(i: nat, ghost first: seq<Trace>) returns (ready: bool, payload: bytes, sendmsg: bool)
      requires i < |slaves| && Valid() && Onward(first, i) && slaves[i].place == Idle
      requires slaves[i].log == first[i]
      modifies this`inbox, slaves
      ensures Valid() && Onward(first, i)
      ensures slaves[i].place == if ready then Sending(payload, sendmsg) else Idle
      ensures ready ==> slaves[i].Defined() && EnabledAt(first[i]) && FitsIn(proto.config, payload)
      ensures ready ==> Punctual(Call(slaves[i].log), OfNanos(proto.line.now))
      ensures !ready ==> NotPollable(i, first[i]) || Early(slaves[i], OfNanos(proto.line.now))
    {
      hide Run, Call, Bus.Onward, Bus.SlaveOk, Bus.Valid, Bus.FitsIn, Bus.EnabledAt;
      var s := slaves[i];
      FlagOf(s);
      if !s.Defined() || !s.enabled { // not to be polled after all
        return false, POLL, false;
      }
      CallBegins(s.log);
      if s.Offline() {
        Step(i, first, Begin, Purging);
        payload, sendmsg := POLL, false;
        ready := OfflineBranch(i, first);
      } else {
        Step(i, first, Begin, if s.retry > 0 then Retrying else Choosing);
        ready, payload, sendmsg := OnlineBranch(i, first);
      }
    }

    lemma FlagOf(s: OsdpSlave)
      requires Valid() && s in slaves
      ensures EnabledAt(s.log) == s.enabled
    {
      assert SlaveOk(s);
    }

    lemma CallBegins(log: Trace)
      ensures forall now :: Punctual(Call(log + [Begin]), now)
    {
      assert Call(log + [Begin]) == [Begin];
    }

    /** The slave selected was not to be polled, and nothing was done about it. */
    ghost predicate NotPollable(i: nat, was: Trace)
      requires i < |slaves|
      reads this`slaves, slaves
    {
      slaves[i].log == was && (!slaves[i].Defined() || !EnabledAt(was))
    }

    method PollSelected(i: nat, ghost first: seq<Trace>)
      returns (polled: bool, ghost payload: bytes, ghost sendmsg: bool, ghost seqno: nat, ghost arrived: bytes)
      requires i < |slaves| && Valid() && Onward(first, i) && slaves[i].place == Idle
      requires slaves[i].log == first[i]
      modifies this`inbox, this`crcCount, this`timeoutCount, slaves
      modifies proto.line, proto.inBuffer, proto.outBuffer
      modifies proto`outLen, proto`nextWrite, proto`deadline
      ensures Valid() && Onward(first, i) && slaves[i].place == Idle && seqno <= 3
      ensures polled ==>
                && slaves[i].Defined() && EnabledAt(first[i])
                && Exchanged(i, old(proto.line.tx), OfNanos(old(proto.line.now)), payload, sendmsg, seqno, arrived)
                && Scored(old(crcCount), old(timeoutCount), arrived)
      ensures !polled ==>
                && proto.line.tx == old(proto.line.tx)
                && crcCount == old(crcCount) && timeoutCount == old(timeoutCount)
                && (NotPollable(i, first[i]) || Early(slaves[i], OfNanos(old(proto.line.now))))
    {
      hide Run, Call, Bus.Onward, Receive, Bus.SlaveOk, Encode, Padded, KindOf, Bus.FitsIn, Bus.Valid,
           Bus.Fetched, Bus.Conducted, Bus.Aftermath, Bus.Scored, Bus.EnabledAt, Bus.Punctual, Bus.Early, Bus.NotPollable;
      payload, sendmsg, seqno, arrived := [], false, 0, [];
      ghost var now := OfNanos(proto.line.now);
      var ready, msg, withMsg := Prepare(i, first);
      if !ready {
        return false, payload, sendmsg, seqno, arrived;
      }
      payload, sendmsg := msg, withMsg;
      var s := slaves[i];
      var size;
      ghost var lead := Call(s.log);
      size, arrived := Transact(i, first, msg, withMsg);
      seqno := s.txseq;
      HandleReply(i, first, size, arrived, msg, withMsg);
      ConductedBy(s, now, lead, payload, sendmsg, seqno,
                  KindOf(s.addr, Receive(0xFF, arrived), OfNanos(proto.line.now)));
      polled := true;
    }

    /** The slave was not eligible throughout the call, and only the MQTT thread touched it. */
    ghost predicate LeftAlone(i: nat, since: seq<Trace>)
      requires |since| == |slaves|
      reads this`slaves, slaves
    {
      i < |slaves| && i !in Steady(since) && Interleaved(since[i], slaves[i].log)
    }

    /**
      One call: the cursor moves on, never over a slave that stays eligible; the other slaves are
      touched by the MQTT thread at most; and the slave selected is polled, being eligible, or it
      was not eligible throughout, or it was too early by the clock.
     */
    method SlavePoll() returns (polled: bool, ghost payload: bytes, ghost sendmsg: bool,
                                ghost seqno: nat, ghost arrived: bytes)
      requires Valid() && slaves != [] && AllIdle()
      modifies this`cursor, this`inbox, this`crcCount, this`timeoutCount, slaves
      modifies proto.line, proto.inBuffer, proto.outBuffer
      modifies proto`outLen, proto`nextWrite, proto`deadline
      ensures Valid() && AllIdle() && cursor < |slaves| && seqno <= 3
      ensures Turn(old(cursor), cursor, |slaves|, Steady(old(Logs())))
      ensures cursor == old(cursor) || Chosen(cursor, old(Logs()))
      ensures Onward(old(Logs()), cursor)
      ensures polled ==>
                && Chosen(cursor, old(Logs()))
                && Exchanged(cursor, old(proto.line.tx), OfNanos(old(proto.line.now)), payload, sendmsg, seqno, arrived)
                && Scored(old(crcCount), old(timeoutCount), arrived)
      ensures !polled ==>
                && proto.line.tx == old(proto.line.tx)
                && crcCount == old(crcCount) && timeoutCount == old(timeoutCount)
                && (LeftAlone(cursor, old(Logs())) || Early(slaves[cursor], OfNanos(old(proto.line.now))))
    {
      hide Run, Bus.Valid, Bus.SlaveOk, Bus.Exchanged, Bus.Scored, Bus.Early, Bus.NotPollable, Bus.LeftAlone, Bus.EnabledAt,
           Call, Bus.Onward, Bus.Steady, Bus.AllIdle, Bus.Chosen, SteadySince, SeenEnabled, Distance,
           AllInterleaved, OthersInterleaved, AllRest, KindOf, Receive, Encode, Padded;
      ghost var first := Logs();
      IdleLogs();
      Settle();
      var i := cursor;
      ghost var mid, steady := Logs(), Steady(first);
      Arrived(first, mid);
      polled, payload, sendmsg, seqno, arrived := PollSelected(i, mid);
      Departed(first, mid, i, steady);
      Judged(first, mid, i);
    }

    /** What was so when the slave was looked at counts for the whole call. */
    lemma Judged(first: seq<Trace>, mid: seq<Trace>, i: nat)
      requires Valid() && AllInterleaved(first, mid) && Onward(mid, i)
      ensures slaves[i].Defined() && EnabledAt(mid[i]) ==> Chosen(i, first)
      ensures NotPollable(i, mid[i]) ==> LeftAlone(i, first)
    {
      hide Run, Bus.SlaveOk;
      assert Interleaved(first[i], mid[i]);
      var log, k := slaves[i].log, |mid[i]|;
      assert log[..k] == mid[i];
      assert |first[i]| <= k <= |log|;
    }

    /** After the search the other slaves have seen only the MQTT thread, and all are at rest. */
    lemma Arrived(first: seq<Trace>, mid: seq<Trace>)
      requires Valid() && AllInterleaved(first, mid) && mid == Logs() && AllRest(first) && cursor < |slaves|
      ensures Onward(mid, cursor) && slaves[cursor].place == Idle
      ensures Chosen(cursor, first) ==> slaves[cursor].Defined() && SeenEnabled(mid[cursor], |first[cursor]|)
      ensures forall j: nat :: j in Steady(first) <==>
                j < |slaves| && slaves[j].Defined() && SteadySince(mid[j], |first[j]|)
    {
      hide SteadySince;
      StayIdle(first, |slaves|);
      AllInterleavedSelf(mid);
      AllIsOthers(mid, Logs(), cursor);
    }

    /** After the exchange the same still holds, seen from the start of the call. */
    lemma Departed(first: seq<Trace>, mid: seq<Trace>, i: nat, steady: set<nat>)
      requires Valid() && AllInterleaved(first, mid) && AllRest(first)
      requires Onward(mid, i) && slaves[i].place == Idle
      requires forall j: nat :: j in steady <==>
                 j < |slaves| && slaves[j].Defined() && SteadySince(mid[j], |first[j]|)
      ensures AllIdle() && Onward(first, i) && Steady(first) <= steady
      ensures slaves[i].Defined() && SeenEnabled(mid[i], |first[i]|) ==> Chosen(i, first)
    {
      hide Run, SteadySince, SeenEnabled, Bus.SlaveOk, Interleaved;
      AllIsOthers(first, mid, i);
      OthersInterleavedAgain(first, mid, Logs(), i);
      StillIdle(first, i);
      forall j | j in Steady(first)
        ensures j in steady
      {
        MidIsPrefix(mid, i, j);
        SteadyShrinks(mid[j], Logs()[j], |first[j]|);
      }
      if slaves[i].Defined() && SeenEnabled(mid[i], |first[i]|) {
        SeenStays(mid[i], Logs()[i], |first[i]|);
      }
    }

    lemma MidIsPrefix(mid: seq<Trace>, i: nat, j: nat)
      requires Onward(mid, i) && j < |slaves|
      ensures mid[j] <= Logs()[j]
    {
      if j != i {
        assert Interleaved(mid[j], Logs()[j]);
      }
    }

    lemma StillIdle(first: seq<Trace>, i: nat)
      requires Valid() && AllRest(first) && Onward(first, i) && slaves[i].place == Idle
      ensures AllIdle()
    {
      StayIdle(first, i);
    }

    lemma AllIsOthers(a: seq<Trace>, b: seq<Trace>, i: nat)
      requires AllInterleaved(a, b) && i < |a|
      ensures OthersInterleaved(a, b, i) && a[i] <= b[i]
    {
      assert Interleaved(a[i], b[i]);
    }

    // -------------------------------------------------------------- what every slave has been through

    /**
      At every moment of the bus thread's life the history of a slave is a run of the polling
      machine that ends in its fields, so all that is proved of runs holds of the slave: its queue,
      its retry counter and what has been published of it, among others.
     */
    lemma SlaveLaws(s: OsdpSlave)
      requires Valid() && s in slaves
      ensures Pushed(s.log) == Removed(s.log) + s.msglist
      ensures s.retry == if EverAccepted(s.log) then Min(10, FailsSinceAccept(s.log)) else 11
      ensures s.txseq <= 3 && (NoNaks(s.log) && !s.Offline() ==> s.txseq >= 1)
      ensures Run(s.log).Some? && (Truthful(s.State()) <==> !Misled(s.log))
      ensures NoControls(s.log) ==> TruthfullyAlternating(s.State())
      ensures ProperClock(s.log) && (s.place == Idle ==> Whole(Call(s.log)))
      ensures s.enabled <==> LastSwitch(s.log) != Some(Disable)
      ensures s.Defined() <==> s.addr as nat != 255
    {
      assert SlaveOk(s);
      hide Run, Pushed, Removed, TruthfullyAlternating, Truthful, Misled, Whole, Call;
      ByteBack(s.addr);
      EnabledUnlessSwitchedOff(s.log);
      if s.place == Idle {
        CallsAreWhole(s.log);
      }
      TrueUnlessMisled(s.log);
      QueueConserved(s.log);
      RetryCounts(s.log);
      SequenceInv(s.log);
      if NoNaks(s.log) && !s.Offline() {
        OnlineIsNumbered(s.log);
      }
      if NoControls(s.log) {
        StatusesAlternate(s.log);
      }
    }

    /**
      Exactly once, for a slave of this bus: whatever became of its polls on the line, as long as
      the two things the bus can see to were seen to.
     */
    lemma ServedExactlyOnce(s: OsdpSlave, last: int, acts: ExactlyOnce.Play)
      requires Valid() && s in slaves && ExactlyOnce.Events(acts) == s.log
      requires forall a :: a in acts && a.Local? ==> !a.event.Answer?
      requires ExactlyOnce.Numbered(acts) && ExactlyOnce.Careful(last, acts)
      ensures ExactlyOnce.Perform(last, acts).Some?
      ensures var y := ExactlyOnce.Perform(last, acts).value;
              && y.m == s.State() && y.pushed == |Pushed(s.log)| && y.removed == |Removed(s.log)|
              && ExactlyOnce.ExecutedOnce(y)
    {
      assert SlaveOk(s);
      hide Run, ExactlyOnce.Perform, ExactlyOnce.Careful, ExactlyOnce.ExecutedOnce;
      ExactlyOnce.RunsArePlayed(last, acts);
      ExactlyOnce.MasterRuns(last, acts);
      ExactlyOnce.PlayCounts(last, acts);
      ExactlyOnce.NumberedExactlyOnce(last, acts);
    }

    // -------------------------------------------------------------- the bus thread

    /** Everybody's history has grown. */
    ghost predicate Grown(first: seq<Trace>)
      reads this`slaves, slaves
    {
      |first| == |slaves| && forall j :: 0 <= j < |slaves| ==> first[j] <= slaves[j].log
    }

    lemma OnwardGrows(first: seq<Trace>, i: nat)
      requires Onward(first, i)
      ensures Grown(first)
    {
      forall j | 0 <= j < |slaves|
        ensures first[j] <= slaves[j].log
      {
        MidIsPrefix(first, i, j);
      }
    }

    /** The slaves that have been eligible at some moment since the logs had the given lengths. */
    ghost function Seen(since: seq<Trace>): set<nat>
      requires |since| == |slaves|
      reads this`slaves, slaves
    {
      set j: nat | j < |slaves| && Chosen(j, since)
    }

    lemma SeenAt(since: seq<Trace>)
      requires |since| == |slaves|
      ensures forall j: nat :: j in Seen(since) <==>
                j < |slaves| && slaves[j].Defined() && SeenEnabled(Logs()[j], |since[j]|)
    {
    }

    /** A slave once seen eligible remains so, and a later start sees no more than an earlier one. */
    lemma SeenWithin(first: seq<Trace>, mid: seq<Trace>, had: set<nat>, i: nat)
      requires Grown(mid) && |first| == |mid| && i < |slaves|
      requires forall j :: 0 <= j < |mid| ==> first[j] <= mid[j]
      requires forall j: nat :: j in had <==>
                 j < |slaves| && slaves[j].Defined() && SeenEnabled(mid[j], |first[j]|)
      ensures had <= Seen(first) && (Chosen(i, mid) ==> i in Seen(first))
    {
      hide Run;
      forall j | j in had
        ensures j in Seen(first)
      {
        SeenStays(mid[j], slaves[j].log, |first[j]|);
      }
    }

    /** A slave eligible since the first moment is so since any later one, up to any earlier one. */
    lemma SteadyWithin(first: seq<Trace>, mid: seq<Trace>, was: set<nat>, turn: set<nat>)
      requires Grown(mid) && |first| == |mid|
      requires forall j :: 0 <= j < |mid| ==> first[j] <= mid[j]
      requires forall j: nat :: j in was <==>
                 j < |slaves| && slaves[j].Defined() && SteadySince(mid[j], |first[j]|)
      requires turn == Steady(mid)
      ensures Steady(first) <= was && Steady(first) <= turn
    {
      hide Run;
      forall j | j in Steady(first)
        ensures j in was && j in turn
      {
        SteadyShrinks(mid[j], slaves[j].log, |first[j]|);
      }
    }

    /** One more call in a run of them. */
    method ServeOne(ghost first: seq<Trace>) returns (ghost steady: set<nat>)
      requires Valid() && slaves != [] && AllIdle() && Grown(first)
      modifies this`cursor, this`inbox, this`crcCount, this`timeoutCount, slaves
      modifies proto.line, proto.inBuffer, proto.outBuffer
      modifies proto`outLen, proto`nextWrite, proto`deadline
      ensures Valid() && AllIdle() && Grown(first) && cursor < |slaves|
      ensures Turn(old(cursor), cursor, |slaves|, steady)
      ensures Steady(first) <= old(Steady(first)) && Steady(first) <= steady
      ensures old(Seen(first)) <= Seen(first) && (cursor == old(cursor) || cursor in Seen(first))
    {
      hide Run, Bus.Valid, Bus.AllIdle, Bus.Onward, Bus.Exchanged, Bus.LeftAlone, Bus.Early, Bus.Chosen,
           Bus.Steady, Bus.Seen, SteadySince, SeenEnabled, Distance, Turn;
      ghost var mid, was, had := Logs(), Steady(first), Seen(first);
      SteadyAt(first);
      SeenAt(first);
      var polled;
      ghost var payload, sendmsg, seqno, arrived;
      polled, payload, sendmsg, seqno, arrived := SlavePoll();
      OnwardGrows(mid, cursor);
      steady := Steady(mid);
      SteadyWithin(first, mid, was, steady);
      SeenWithin(first, mid, had, cursor);
    }

    /**
      The bus thread's loop, for a number of calls.  A slave eligible at every moment of them is
      selected in every window of as many calls as there are slaves; and when no others are ever
      eligible, any window of as many calls as there are such slaves selects each of them once.
     */
    method Serve(calls: nat) returns (ghost c: seq<nat>)
      requires Valid() && slaves != [] && AllIdle()
      modifies this`cursor, this`inbox, this`crcCount, this`timeoutCount, slaves
      modifies proto.line, proto.inBuffer, proto.outBuffer
      modifies proto`outLen, proto`nextWrite, proto`deadline
      ensures Valid() && AllIdle() && Grown(old(Logs()))
      ensures |c| == calls + 1 && c[0] == old(cursor) && c[calls] == cursor
      ensures forall j :: j in Steady(old(Logs())) ==> NeverStarved(c, |slaves|, j)
      ensures Seen(old(Logs())) <= Steady(old(Logs())) ==> EachOnce(c, Steady(old(Logs())))
    {
      hide Run, Bus.Valid, Bus.AllIdle, Bus.Steady, Bus.Seen, Bus.Grown, Turn, NeverStarved, EachOnce, Rounds;
      CursorOk();
      ghost var first, steady := Logs(), [];
      c := [cursor];
      ServeNone(first, c);
      var k := 0;
      while k < calls
        invariant k <= calls && |c| == k + 1 && c[0] == old(cursor) && c[k] == cursor
        invariant Valid() && AllIdle() && |first| == |slaves| && Grown(first) && cursor < |slaves|
        invariant Rounds(c, |slaves|, steady, Steady(first), Seen(first))
      {
        ghost var was, had := Steady(first), Seen(first);
        ghost var st := ServeOne(first);
        RoundsSnoc(c, |slaves|, steady, was, had, cursor, st, Steady(first), Seen(first));
        c, steady := c + [cursor], steady + [st];
        k := k + 1;
      }
      forall j | j in Steady(first)
        ensures NeverStarved(c, |slaves|, j)
      {
        InEveryWindow(c, |slaves|, steady, Steady(first), Seen(first), j);
      }
      if Seen(first) <= Steady(first) {
        FixedIsFair(c, |slaves|, steady, Steady(first), Seen(first));
      }
    }

    lemma ServeNone(first: seq<Trace>, c: seq<nat>)
      requires first == Logs() && cursor < |slaves| && c == [cursor]
      ensures Grown(first) && Rounds(c, |slaves|, [], Steady(first), Seen(first))
    {
    }

    lemma CursorOk()
      requires Valid() && slaves != []
      ensures cursor < |slaves|
    {
    }
  }
}
