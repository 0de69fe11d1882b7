/** Two stations on a line: what one writes is what the other reads. */
module Stations {
  import opened Bytes
  import opened Frame
  import opened FrameTheory
  import opened Protocol

  /** Messages that leave room for their envelope in the output buffer. */
  predicate FitIn(c: SerialConfig, ms: seq<Message>) {
    forall m :: m in ms ==> Max(c.lead, 0) + |m.payload| + 7 + Max(c.trail, 0) <= BUFFER_SIZE
  }

  /** Write the messages, others putting whatever they like on the line before, between and after. */
  method Talk(p: Protocol, ms: seq<Message>, gaps: seq<bytes>)
    requires p.Valid() && |gaps| == |ms| + 1 && FitIn(p.config, ms)
    modifies p.line, p.outBuffer, p`outLen, p`nextWrite
    ensures p.line.tx == old(p.line.tx) + Conversation(p.config.lead, p.config.trail, ms, gaps)
  {
    hide Encode, Padded;
    var i := 0;
    assert ms[0..] == ms && gaps[0..] == gaps;
    while i < |ms|
      invariant 0 <= i <= |ms|
      invariant p.line.tx + Conversation(p.config.lead, p.config.trail, ms[i..], gaps[i..]) ==
                old(p.line.tx) + Conversation(p.config.lead, p.config.trail, ms, gaps)
    {
      var m := ms[i];
      assert m in ms;
      TalkStep(p.line.tx, p.config.lead, p.config.trail, ms, gaps, i);
      p.line.tx := p.line.tx + gaps[i];
      p.WriteCook(m.addr, m.ctrl, m.payload);
      i := i + 1;
    }
    p.line.tx := p.line.tx + gaps[i];
  }

  lemma TalkStep(tx: bytes, lead: int, trail: int, ms: seq<Message>, gaps: seq<bytes>, i: nat)
    requires |gaps| == |ms| + 1 && i < |ms|
    ensures tx + Conversation(lead, trail, ms[i..], gaps[i..]) ==
            tx + gaps[i] + Padded(lead, trail, Encode(ms[i].addr, ms[i].ctrl, ms[i].payload)) +
            Conversation(lead, trail, ms[i+1..], gaps[i+1..])
  {
    hide Encode, Padded;
    assert ms[i..][1..] == ms[i+1..] && gaps[i..][1..] == gaps[i+1..];
  }

  /** Read so many messages; note each result and the buffer after it. */
  method Listen(p: Protocol, n: nat) returns (sizes: seq<int>, buffers: seq<bytes>)
    requires p.Valid() && p.config.timeout >= 0
    modifies p.line, p.inBuffer, p`deadline, p`nextWrite
    ensures |sizes| == n && |buffers| == n
    ensures var (os, rest) := ReadMany(p.myAddr, old(p.line.rx), n);
            && p.line.rx == rest && |os| == n
            && forall i :: 0 <= i < n ==> Shows(sizes[i], buffers[i], os[i])
  {
    hide Receive, Shows;
    sizes, buffers := [], [];
    ghost var os: seq<Outcome> := [];
    var i := 0;
    while i < n
      invariant i <= n && |sizes| == i && |buffers| == i && |os| == i
      invariant os + ReadMany(p.myAddr, p.line.rx, n - i).0 == ReadMany(p.myAddr, old(p.line.rx), n).0
      invariant ReadMany(p.myAddr, p.line.rx, n - i).1 == ReadMany(p.myAddr, old(p.line.rx), n).1
      invariant forall j :: 0 <= j < i ==> Shows(sizes[j], buffers[j], os[j])
    {
      ghost var o := Receive(p.myAddr, p.line.rx);
      os := os + [o];
      var size := p.ReadCook();
      ShowsIt(size, p.inBuffer[..], o);
      sizes, buffers := sizes + [size], buffers + [p.inBuffer[..]];
      i := i + 1;
    }
  }

  /** A result and a buffer are those of an outcome. */
  predicate Shows(size: int, buffer: bytes, o: Outcome) {
    size == o.code && |o.frame| <= |buffer| && buffer[..|o.frame|] == o.frame
  }

  lemma ShowsIt(size: int, buffer: bytes, o: Outcome)
    requires size == o.code && |buffer| == BUFFER_SIZE && |o.frame| <= BUFFER_SIZE
    requires buffer[..|o.frame|] == o.frame
    ensures Shows(size, buffer, o)
  {
  }

  /**
    Any messages of up to 259 bytes, padded, written in whatever pieces the line takes, with any
    bytes free of introducers around them, and read in whatever pieces the line delivers: the
    master's reads return exactly their addresses, sequence numbers and payloads, in order, and
    one more read times out.
   */
  method EndToEnd(a: Protocol, b: Protocol, ms: seq<Message>, gaps: seq<bytes>)
    returns (sizes: seq<int>, buffers: seq<bytes>, last: int)
    requires a.Valid() && b.Valid() && a != b && a.line != b.line && a.outBuffer != b.inBuffer
    requires a.line.tx == [] && b.myAddr == 0xFF && b.config.timeout >= 0
    requires |gaps| == |ms| + 1 && forall g :: g in gaps ==> SOH !in g
    requires FitIn(a.config, ms) && forall m :: m in ms ==> Readable(m) && m.addr <= 0x7F && m.ctrl <= 3
    modifies a, b, a.line, b.line, a.outBuffer, b.inBuffer
    ensures |sizes| == |ms| && |buffers| == |ms|
    ensures forall i :: 0 <= i < |ms| ==> Got(sizes[i], buffers[i], ms[i])
    ensures last == TIMEOUT
  {
    hide Receive, Conversation, ReadMany;
    Talk(a, ms, gaps);
    b.line.rx := a.line.tx;
    ghost var lead, trail, s := a.config.lead, a.config.trail, b.line.rx;
    assert s == [] + Conversation(lead, trail, ms, gaps);
    sizes, buffers := Listen(b, |ms|);
    ConversationReadsBack([], lead, trail, ms, gaps, |ms|);
    ConversationEnds([], lead, trail, ms, gaps);
    ghost var os := ReadMany(0xFF, s, |ms|).0;
    forall i | 0 <= i < |ms|
      ensures Got(sizes[i], buffers[i], ms[i])
    {
      assert ms[i] in ms && Shows(sizes[i], buffers[i], os[i]);
      DeliveredFields(os[i], ms[i]);
      ShownFields(sizes[i], buffers[i], os[i], ms[i]);
    }
    last := b.ReadCook();
  }

  /** The message, as a reader finds it in its buffer. */
  predicate Got(size: int, buffer: bytes, m: Message) {
    && HEADER <= size <= |buffer|
    && buffer[1] == m.addr && buffer[4] & 0x03 == m.ctrl && buffer[HEADER..size] == m.payload
  }

  lemma ShownFields(size: int, buffer: bytes, o: Outcome, m: Message)
    requires Shows(size, buffer, o) && Delivers(o, m)
    requires o.frame[1] == m.addr && o.frame[4] & 0x03 == m.ctrl && o.frame[HEADER..o.code] == m.payload
    ensures Got(size, buffer, m)
  {
    hide Encode;
    var f := o.frame;
    assert |f| == |m.payload| + 7;
    forall k | 0 <= k < |f|
      ensures buffer[k] == f[k]
    {
      assert buffer[k] == buffer[..|f|][k];
    }
    forall k | 0 <= k < |m.payload|
      ensures buffer[HEADER..size][k] == m.payload[k]
    {
      assert m.payload[k] == f[HEADER..o.code][k] == f[HEADER + k];
    }
  }
}
