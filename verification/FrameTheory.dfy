/**
  What the packet format guarantees: frames written are the frames read, whatever lies between
  them; a damaged frame is refused; a frame let by is checked in full.
 */
module FrameTheory {
  import opened Bytes
  import opened Crc16
  import opened CrcTheory
  import opened Frame

  // ---------------------------------------------------------------- one frame

  lemma ControlAnnouncesCrc(ctrl: byte)
    ensures UsesCrc(ctrl | CTRL_CRC)
  {
  }

  lemma SequenceSurvives(ctrl: byte)
    requires ctrl <= 3
    ensures (ctrl | CTRL_CRC) & 0x03 == ctrl
  {
  }

  lemma AddressSurvives(addr: byte)
    requires addr <= 0x7F
    ensures addr & 0x7F == addr
  {
  }

  lemma EncodePasses(addr: byte, ctrl: byte, payload: bytes)
    ensures var f := Encode(addr, ctrl, payload); Check(f) == |f| - 2
  {
    hide Add, Trailer, CrcBytes, UsesCrc, LowByte, HighByte;
    var f, head := Encode(addr, ctrl, payload), Covered(addr, ctrl, payload);
    var crc := Add(PRESET, head);
    assert f[..|f|-2] == head;
    assert f[|f|-2] == CrcBytes(crc)[0] && f[|f|-1] == CrcBytes(crc)[1];
    TrailerRoundTrip(crc);
    ControlAnnouncesCrc(ctrl);
  }

  lemma EncodedHeader(addr: byte, ctrl: byte, payload: bytes)
    requires |payload| + 7 < 0x1_0000
    ensures var f := Encode(addr, ctrl, payload);
            f[0] == SOH && f[1] == addr & 0x7F && LengthOf(f[2], f[3]) == |f|
    ensures Encode(addr, ctrl, payload)[4] == ctrl | CTRL_CRC
    ensures Encode(addr, ctrl, payload)[5..|payload| + 5] == payload
  {
    hide Add, CrcBytes, LengthOf, LowByte, HighByte;
    LengthRoundTrip(|payload| + 7);
  }

  lemma NoneInPad(n: int)
    ensures SOH !in Pad(n)
  {
  }

  /**
    A frame behind any noise free of introducers, with anything after it, reads back exactly when
    its payload has at most 259 bytes: then the read returns it whole and stops at its last byte;
    otherwise the reader gives up with the header.
   */
  lemma ReadsBack(me: byte, noise: bytes, addr: byte, ctrl: byte, payload: bytes, rest: bytes)
    requires SOH !in noise && |payload| + 7 < 0x1_0000
    requires !Elsewhere(me, addr & 0x7F)
    ensures var f := Encode(addr, ctrl, payload);
            Receive(me, noise + f + rest) ==
              if |payload| <= 259 then Outcome(|payload| + 5, f, |noise| + |f|)
              else Outcome(OVERFLOW, f[..HEADER], |noise| + HEADER)
  {
    hide Receive, FirstSoh, LetBy, Accept, Encode, Elsewhere;
    var f := Encode(addr, ctrl, payload);
    var t := f + rest;
    assert f[0] == SOH && !Elsewhere(me, f[1]) by { EncodedHeader(addr, ctrl, payload); }
    AcceptsWritten(addr, ctrl, payload, rest);
    assert noise + f + rest == noise + t && t[0] == f[0] && t[1] == f[1];
    ReadsKept(me, noise, t);
  }

  lemma ReadsKept(me: byte, noise: bytes, t: bytes)
    requires SOH !in noise && |t| >= HEADER && t[0] == SOH && !Elsewhere(me, t[1])
    ensures Receive(me, noise + t) == Accept(t).(consumed := |noise| + Accept(t).consumed)
  {
    hide Receive, FirstSoh, LetBy, Accept, Elsewhere;
    StartOfFrame(noise, t);
    ReadFrom(me, noise + t, t);
  }

  lemma StartOfFrame(noise: bytes, t: bytes)
    requires SOH !in noise && t != [] && t[0] == SOH
    ensures FirstSoh(noise + t) == |noise| && (noise + t)[|noise|..] == t
  {
    FirstSohSkips(noise, t);
  }

  lemma AcceptsWritten(addr: byte, ctrl: byte, payload: bytes, rest: bytes)
    requires |payload| + 7 < 0x1_0000
    ensures var f := Encode(addr, ctrl, payload);
            Accept(f + rest) ==
              if |payload| <= 259 then Outcome(|payload| + 5, f, |f|) else Outcome(OVERFLOW, f[..HEADER], HEADER)
  {
    hide Check, LengthOf, Encode;
    var f := Encode(addr, ctrl, payload);
    EncodedHeader(addr, ctrl, payload);
    EncodePasses(addr, ctrl, payload);
    assert (f + rest)[..|f|] == f && (f + rest)[..HEADER] == f[..HEADER];
  }

  // ---------------------------------------------------------------- a whole conversation

  datatype Message = Message(addr: byte, ctrl: byte, payload: bytes)

  function Wire(m: Message): bytes { Encode(m.addr, m.ctrl, m.payload) }

  /** Padded frames with arbitrary stretches before, between and after them. */
  function Conversation(lead: int, trail: int, ms: seq<Message>, gaps: seq<bytes>): bytes
    requires |gaps| == |ms| + 1
  {
    if ms == [] then gaps[0]
    else gaps[0] + Padded(lead, trail, Wire(ms[0])) + Conversation(lead, trail, ms[1..], gaps[1..])
  }

  /** n successive reads, and what they leave. */
  function ReadMany(me: byte, s: bytes, n: nat): (seq<Outcome>, bytes) {
    if n == 0 then ([], s)
    else
      var o := Receive(me, s);
      var (os, rest) := ReadMany(me, s[o.consumed..], n - 1);
      ([o] + os, rest)
  }

  predicate Readable(m: Message) { |m.payload| <= 259 }

  /** The read outcome o is the message m, whole. */
  predicate Delivers(o: Outcome, m: Message) { o.code == |m.payload| + 5 && o.frame == Wire(m) }

  /**
    The round trip: any messages, padded, separated by any bytes free of introducers, come back
    from successive reads in order, and after n reads the stream stands just behind frame n.
   */
  lemma {:induction false} ConversationReadsBack(
      noise: bytes, lead: int, trail: int, ms: seq<Message>, gaps: seq<bytes>, n: nat)
    requires |gaps| == |ms| + 1 && n <= |ms|
    requires SOH !in noise && forall g :: g in gaps ==> SOH !in g
    requires forall m :: m in ms ==> Readable(m)
    ensures var (os, rest) := ReadMany(0xFF, noise + Conversation(lead, trail, ms, gaps), n);
            && |os| == n && (forall i :: 0 <= i < n ==> Delivers(os[i], ms[i]))
            && rest == (if n == 0 then noise else Pad(trail)) + Conversation(lead, trail, ms[n..], gaps[n..])
    decreases n
  {
    hide Receive, Encode;
    var talk := Conversation(lead, trail, ms, gaps);
    if n == 0 {
      assert ms[n..] == ms && gaps[n..] == gaps;
    } else {
      var m := ms[0];
      var tail := Conversation(lead, trail, ms[1..], gaps[1..]);
      var before := noise + gaps[0] + Pad(lead);
      assert m in ms && Readable(m) && gaps[0] in gaps;
      NoneInPad(lead);
      NoneInPad(trail);
      assert noise + talk == before + Wire(m) + (Pad(trail) + tail);
      ReadsBack(0xFF, before, m.addr, m.ctrl, m.payload, Pad(trail) + tail);
      var o := Receive(0xFF, noise + talk);
      assert (noise + talk)[o.consumed..] == Pad(trail) + tail;
      ConversationReadsBack(Pad(trail), lead, trail, ms[1..], gaps[1..], n - 1);
      assert ms[1..][n-1..] == ms[n..] && gaps[1..][n-1..] == gaps[n..];
    }
  }

  /** After the last message, one more read reports a timeout. */
  lemma ConversationEnds(noise: bytes, lead: int, trail: int, ms: seq<Message>, gaps: seq<bytes>)
    requires |gaps| == |ms| + 1
    requires SOH !in noise && forall g :: g in gaps ==> SOH !in g
    requires forall m :: m in ms ==> Readable(m)
    ensures var (os, rest) := ReadMany(0xFF, noise + Conversation(lead, trail, ms, gaps), |ms|);
            Receive(0xFF, rest).code == TIMEOUT && Receive(0xFF, rest).consumed == |rest|
  {
    ConversationReadsBack(noise, lead, trail, ms, gaps, |ms|);
    var (os, rest) := ReadMany(0xFF, noise + Conversation(lead, trail, ms, gaps), |ms|);
    assert ms[|ms|..] == [] && gaps[|ms|..] == [gaps[|ms|]] && gaps[|ms|] in gaps;
    NoneInPad(trail);
    OnlyNoise(rest);
  }

  lemma OnlyNoise(s: bytes)
    requires SOH !in s
    ensures Receive(0xFF, s).code == TIMEOUT && Receive(0xFF, s).consumed == |s|
  {
    FirstSohSkips(s, []);
    assert s + [] == s;
  }

  /** What the receiver learns from a delivered message: address, sequence number and payload. */
  lemma DeliveredFields(o: Outcome, m: Message)
    requires Readable(m) && Delivers(o, m) && m.addr <= 0x7F && m.ctrl <= 3
    ensures o.frame[1] == m.addr && o.frame[4] & 0x03 == m.ctrl
    ensures o.frame[HEADER..o.code] == m.payload
  {
    hide Encode;
    EncodedHeader(m.addr, m.ctrl, m.payload);
    SequenceSurvives(m.ctrl);
    AddressSurvives(m.addr);
  }

  // ---------------------------------------------------------------- resynchronisation

  /** A read that ends looks at nothing beyond what it consumes; one that does not uses it all. */
  lemma ReadIsDetermined(me: byte, s: bytes, rest: bytes)
    ensures var o := Receive(me, s);
            if o.code == TIMEOUT then o.consumed == |s| else Receive(me, s + rest) == o
  {
    var i := FirstSoh(s);
    var t := s[i..];
    if |t| < HEADER {
      ReadGivesOut(me, s);
    } else {
      WholeHeader(s, rest);
      ReadFrom(me, s, t);
      ReadFrom(me, s + rest, t + rest);
      LetByDetermined(t, rest);
      AcceptDetermined(t, rest);
      hide LetBy, Accept, Elsewhere, Receive, FirstSoh;
    }
  }

  lemma ReadGivesOut(me: byte, s: bytes)
    requires |s[FirstSoh(s)..]| < HEADER
    ensures Receive(me, s).code == TIMEOUT && Receive(me, s).consumed == |s|
  {
  }

  /** More bytes behind a header do not move it. */
  lemma WholeHeader(s: bytes, rest: bytes)
    requires |s[FirstSoh(s)..]| >= HEADER
    ensures var i := FirstSoh(s);
            FirstSoh(s + rest) == i && (s + rest)[i..] == s[i..] + rest && (s[i..] + rest)[1] == s[i..][1]
  {
    hide FirstSoh;
    var i := FirstSoh(s);
    var t := s[i..];
    assert s + rest == s[..i] + (t + rest);
    FirstSohSkips(s[..i], t + rest);
    StartsAtSoh(t + rest);
  }

  lemma StartsAtSoh(t: bytes)
    requires t != [] && t[0] == SOH
    ensures FirstSoh(t) == 0
  {
  }

  lemma ReadFrom(me: byte, s: bytes, t: bytes)
    requires t == s[FirstSoh(s)..] && |t| >= HEADER
    ensures var o := if Elsewhere(me, t[1]) then LetBy(t) else Accept(t);
            Receive(me, s) == o.(consumed := FirstSoh(s) + o.consumed)
  {
  }

  lemma AcceptDetermined(t: bytes, rest: bytes)
    requires |t| >= HEADER
    ensures if Accept(t).code == TIMEOUT then Accept(t).consumed == |t| else Accept(t + rest) == Accept(t)
  {
    hide Check, LengthOf;
    var total := LengthOf(t[2], t[3]);
    assert (t + rest)[..HEADER] == t[..HEADER];
    if |t| >= total {
      assert (t + rest)[..total] == t[..total];
    }
  }

  lemma LetByDetermined(t: bytes, rest: bytes)
    requires |t| >= HEADER
    ensures if LetBy(t).code == TIMEOUT then LetBy(t).consumed == |t| else LetBy(t + rest) == LetBy(t)
  {
    hide Add, LengthOf, Trailer, Sum, UsesCrc;
    var total: int := LengthOf(t[2], t[3]);
    var n: int := if UsesCrc(t[4]) then Max(total - 2, HEADER) else Max(total - 1, HEADER);
    if |t| > n {
      assert (t + rest)[..n] == t[..n];
    }
  }

  /** A read that succeeds leaves a whole frame, function byte or check byte included. */
  lemma KeptFrameIsWhole(me: byte, s: bytes)
    ensures Receive(me, s).code > 0 ==> |Receive(me, s).frame| >= 6
  {
    hide Check, LetBy, Elsewhere, LengthOf;
    var t := s[FirstSoh(s)..];
    if |t| >= HEADER {
      LetByKeepsNothing(t);
    }
  }

  lemma LetByKeepsNothing(t: bytes)
    requires |t| >= HEADER
    ensures LetBy(t).code < 0
    ensures LetBy(t).code == TIMEOUT || LetBy(t).code == FLYBY || LetBy(t).code == BADCHECK
  {
    hide Add, Trailer, Sum, UsesCrc, LengthOf;
  }

  // ---------------------------------------------------------------- damage

  /** A whole frame as a reader sees it: introducer, a length that tells the truth, a check. */
  predicate Sized(f: bytes) { 6 <= |f| && f[0] == SOH && LengthOf(f[2], f[3]) == |f| }

  /** One that fits the input buffer behind another header. */
  predicate WellFormed(f: bytes) { Sized(f) && |f| <= BUFFER_SIZE - HEADER }

  /**
    d differs from f under the CRC only, by a burst or an odd number of bits, and introducer,
    length and control are spared.
   */
  ghost predicate Damaged(f: bytes, d: bytes) {
    && |d| == |f| && |f| >= 6
    && d[0] == f[0] && d[2] == f[2] && d[3] == f[3] && d[4] == f[4]
    && d[|f|-2..] == f[|f|-2..]
    && (Burst(f[..|f|-2], d[..|f|-2]) || OddError(f[..|f|-2], d[..|f|-2]))
  }

  /** Reading a well-formed frame is checking it. */
  lemma ReadChecks(noise: bytes, f: bytes, rest: bytes)
    requires SOH !in noise && WellFormed(f)
    ensures Receive(0xFF, noise + f + rest) == Outcome(Check(f), f, |noise| + |f|)
  {
    hide Check, LengthOf;
    var s, t := noise + f + rest, f + rest;
    assert s == noise + t;
    FirstSohSkips(noise, t);
    assert t[0] == SOH && s[|noise|..] == t && t[..|f|] == f;
  }

  /** Damage shows in the check. */
  lemma DamageShows(f: bytes, d: bytes)
    requires |f| >= 6 && UsesCrc(f[4]) && Check(f) != BADCHECK && Damaged(f, d)
    ensures Check(d) == BADCHECK
  {
    hide Add, Trailer, UsesCrc, Burst, OddError;
    var n := |f|;
    if Burst(f[..n-2], d[..n-2]) {
      BurstChangesCrc(PRESET, f[..n-2], d[..n-2]);
    } else {
      OddErrorChangesCrc(PRESET, f[..n-2], d[..n-2]);
    }
    assert d[n-2] == d[n-2..][0] == f[n-2] && d[n-1] == d[n-2..][1] == f[n-1];
  }

  /**
    A burst of up to sixteen bits, or any odd number of wrong bits, in an accepted frame makes the
    master's read report a bad CRC.
   */
  lemma DamageIsRefused(noise: bytes, f: bytes, d: bytes, rest: bytes)
    requires SOH !in noise && WellFormed(f) && UsesCrc(f[4]) && Check(f) != BADCHECK
    requires Damaged(f, d)
    ensures Receive(0xFF, noise + d + rest) == Outcome(BADCHECK, d, |noise| + |d|)
  {
    DamageShows(f, d);
    hide Add, Trailer, UsesCrc, LengthOf, Burst, OddError, Receive, Check;
    ReadChecks(noise, d, rest);
  }

  /** In particular one altered byte, or two adjacent ones, at i and i + 1. */
  lemma AlteredBytesAreRefused(noise: bytes, f: bytes, d: bytes, i: nat, rest: bytes)
    requires SOH !in noise && WellFormed(f) && UsesCrc(f[4]) && Check(f) != BADCHECK
    requires |d| == |f| && d != f && (i == 1 || i >= HEADER) && i < |f| - 2
    requires forall k :: 0 <= k < |f| && k != i && !(k == i + 1 && HEADER < k < |f| - 2) ==> d[k] == f[k]
    ensures Receive(0xFF, noise + d + rest) == Outcome(BADCHECK, d, |noise| + |d|)
  {
    hide Receive, Check, UsesCrc, LengthOf, Burst, OddError;
    var n := |f|;
    var u, v := f[..n-2], d[..n-2];
    assert f == u + f[n-2..] && d == v + d[n-2..] && d[n-2..] == f[n-2..];
    TwoBytesAreABurst(u, v, i);
    DamageIsRefused(noise, f, d, rest);
  }

  /** How any station takes a frame whose check fails: kept or let by, it is not accepted. */
  function Refusal(me: byte, d: bytes): int
    requires |d| >= 6
  {
    if Elsewhere(me, d[1]) || |d| <= BUFFER_SIZE - HEADER then BADCHECK else OVERFLOW
  }

  lemma BadFrameIsRefused(me: byte, noise: bytes, d: bytes, rest: bytes)
    requires SOH !in noise && Sized(d) && |d| >= LeastLength(d[4]) && Check(d) == BADCHECK
    ensures Receive(me, noise + d + rest).code == Refusal(me, d)
    ensures Refusal(me, d) == BADCHECK ==> Receive(me, noise + d + rest).consumed == |noise| + |d|
  {
    hide Check, LengthOf, LetBy, Accept, Elsewhere, Receive, LeastLength, FirstSoh;
    var s, t := noise + d + rest, d + rest;
    assert s == noise + t && t[1] == d[1];
    FirstSohSkips(noise, t);
    StartsAtSoh(t);
    assert s[|noise|..] == t;
    ReadFrom(me, s, t);
    LetByRefuses(d, rest);
    AcceptRefuses(d, rest);
  }

  lemma LetByRefuses(d: bytes, rest: bytes)
    requires Sized(d) && |d| >= LeastLength(d[4]) && Check(d) == BADCHECK
    ensures LetBy(d + rest).code == BADCHECK && LetBy(d + rest).consumed == |d|
  {
    hide Check, LengthOf, LetBy, LeastLength;
    var t := d + rest;
    assert t[..|d|] == d && t[2] == d[2] && t[3] == d[3] && t[4] == d[4];
    LetByIsWholeCheck(t);
    LetByKeepsNothing(t);
  }

  lemma AcceptRefuses(d: bytes, rest: bytes)
    requires Sized(d) && Check(d) == BADCHECK
    ensures |d| <= BUFFER_SIZE - HEADER ==> Accept(d + rest).code == BADCHECK && Accept(d + rest).consumed == |d|
    ensures |d| > BUFFER_SIZE - HEADER ==> Accept(d + rest).code == OVERFLOW
  {
    hide Check, LengthOf;
    var t := d + rest;
    assert t[..|d|] == d && t[2] == d[2] && t[3] == d[3];
  }

  /** Damage as above is refused by every station, in frames of any length, kept or let by. */
  lemma DamageIsRefusedByAll(me: byte, noise: bytes, f: bytes, d: bytes, rest: bytes)
    requires SOH !in noise && Sized(f) && |f| >= 7 && UsesCrc(f[4]) && Check(f) != BADCHECK
    requires Damaged(f, d)
    ensures Receive(me, noise + d + rest).code == Refusal(me, d)
  {
    DamageShows(f, d);
    hide Add, Trailer, UsesCrc, LengthOf, Burst, OddError, Receive, Check;
    BadFrameIsRefused(me, noise, d, rest);
  }

  /** d is f with the byte at i altered, introducer, length and control being spared. */
  predicate AlteredAt(f: bytes, d: bytes, i: nat) {
    && |d| == |f| && i < |f| && (i == 1 || i >= HEADER) && d[i] != f[i]
    && forall k :: 0 <= k < |f| && k != i ==> d[k] == f[k]
  }

  /** A frame with the short checksum: one altered byte, the checksum itself included, is refused by all. */
  lemma AlteredByteIsRefusedBySum(me: byte, noise: bytes, f: bytes, d: bytes, i: nat, rest: bytes)
    requires SOH !in noise && Sized(f) && !UsesCrc(f[4]) && Check(f) != BADCHECK && AlteredAt(f, d, i)
    ensures Receive(me, noise + d + rest).code == Refusal(me, d)
  {
    SumShows(f, d, i);
    hide UsesCrc, LengthOf, Receive, Check;
    BadFrameIsRefused(me, noise, d, rest);
  }

  lemma SumShows(f: bytes, d: bytes, i: nat)
    requires |f| >= 6 && !UsesCrc(f[4]) && Check(f) != BADCHECK && AlteredAt(f, d, i)
    ensures Check(d) == BADCHECK
  {
    hide UsesCrc, Sum, Value;
    var n := |f|;
    ByteIsItsValue(d[n-1], f[n-1]);
    if i == n - 1 {
      assert d[..n-1] == f[..n-1];
    } else {
      var u, v := f[..i], f[i+1..n-1];
      assert f[..n-1] == u + [f[i]] + v && d[..n-1] == u + [d[i]] + v;
      SumCatchesOneByte(u, f[i], d[i], v);
    }
  }

  lemma ByteIsItsValue(b: byte, c: byte)
    ensures Value(b) == Value(c) ==> b == c
  {
  }

  lemma SumsCancel(x: nat, y: nat, b: nat, c: nat)
    requires b < 256 && c < 256 && ((x + b) % 256 + y) % 256 == ((x + c) % 256 + y) % 256
    ensures b == c
  {
  }

  /** The byte sum catches any single altered byte. */
  lemma SumCatchesOneByte(u: bytes, b: byte, c: byte, v: bytes)
    ensures Sum(u + [b] + v) == Sum(u + [c] + v) <==> b == c
  {
    hide Plus;
    SumConcat(u + [b], v);
    SumConcat(u + [c], v);
    assert (u + [b])[..|u|] == u && (u + [c])[..|u|] == u;
    if Sum(u + [b] + v) == Sum(u + [c] + v) {
      PlusTellsApart(Sum(u), b, c, Sum(v));
    }
  }

  lemma PlusTellsApart(x: nat, b: byte, c: byte, y: nat)
    requires (Plus(x, b) + y) % 256 == (Plus(x, c) + y) % 256
    ensures b == c
  {
    hide Value;
    SumsCancel(x, y, Value(b), Value(c));
    ByteIsItsValue(b, c);
  }

  // ---------------------------------------------------------------- frames let by

  /** The shortest length the streaming check handles as announced. */
  function LeastLength(ctrl: byte): int { if UsesCrc(ctrl) then 7 else 6 }

  /**
    Letting a frame by is checking the whole of it, for every announced length from the least up,
    however much larger than the buffer: success exactly when all of it arrives and its check
    holds, and then exactly the frame is gone from the stream.
   */
  lemma LetByIsWholeCheck(t: bytes)
    requires |t| >= HEADER
    requires LengthOf(t[2], t[3]) >= LeastLength(t[4])
    ensures var total := LengthOf(t[2], t[3]);
            && (LetBy(t).code == FLYBY <==> |t| >= total && Check(t[..total]) != BADCHECK)
            && (LetBy(t).code == TIMEOUT <==> |t| < total)
            && (|t| >= total ==> LetBy(t).consumed == total)
  {
    hide Add, LengthOf, Trailer, Sum, UsesCrc;
    var total := LengthOf(t[2], t[3]);
    if |t| >= total {
      var f := t[..total];
      assert f[..total-2] == t[..total-2] && f[..total-1] == t[..total-1];
    }
  }

  /** A shorter announcement is not believed: the least length is taken from the stream anyway. */
  lemma LetByTakesAtLeast(t: bytes)
    requires |t| >= 7 && LengthOf(t[2], t[3]) < LeastLength(t[4])
    ensures LetBy(t).consumed == LeastLength(t[4])
  {
  }
}
