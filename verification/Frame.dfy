/**
  The packet format, as values: what one frame is on the wire, and what a reader makes of an
  arbitrary stream.  The imperative reader and writer are proved against these functions.
 */
module Frame {
  import opened Bytes
  import opened Crc16

  // ---------------------------------------------------------------- the writer's side

  function Pad(n: int): (p: bytes)
    ensures |p| == Max(n, 0)
  {
    seq(Max(n, 0), _ => MARK)
  }

  function CrcBytes(crc: bv16): (b: bytes)
    ensures |b| == 2
  {
    [(crc & 0xFF) as byte, ((crc >> 8) & 0xFF) as byte]
  }

  /** The common header of a frame of n bytes. */
  function Header(addr: byte, ctrl: byte, n: nat): (h: bytes)
    ensures |h| == HEADER
  {
    [SOH, addr & 0x7F, LowByte(n), HighByte(n), ctrl | CTRL_CRC]
  }

  /** Header and payload, the part under the CRC. */
  function Covered(addr: byte, ctrl: byte, payload: bytes): bytes {
    Header(addr, ctrl, |payload| + 7) + payload
  }

  function Encode(addr: byte, ctrl: byte, payload: bytes): (f: bytes)
    ensures |f| == |payload| + 7
  {
    var head := Covered(addr, ctrl, payload);
    head + CrcBytes(Add(PRESET, head))
  }

  function Padded(lead: int, trail: int, frame: bytes): bytes {
    Pad(lead) + frame + Pad(trail)
  }

  // ---------------------------------------------------------------- the reader's side

  /** The index of the first introducer, or the length of the stream if it holds none. */
  function FirstSoh(s: bytes): (i: nat)
    ensures i <= |s|
    ensures i < |s| ==> s[i] == SOH
    ensures forall k :: 0 <= k < i ==> s[k] != SOH
  {
    if s == [] || s[0] == SOH then 0 else 1 + FirstSoh(s[1..])
  }

  lemma {:induction false} FirstSohSkips(g: bytes, s: bytes)
    requires SOH !in g
    ensures FirstSoh(g + s) == |g| + FirstSoh(s)
    decreases |g|
  {
    if g == [] {
      assert g + s == s;
    } else {
      assert (g + s)[1..] == g[1..] + s;
      FirstSohSkips(g[1..], s);
    }
  }

  lemma {:induction false} FirstOfPrefix(s: bytes, n: nat)
    requires n <= |s| && FirstSoh(s[..n]) < n
    ensures FirstSoh(s) == FirstSoh(s[..n])
    decreases n
  {
    if s[0] != SOH {
      assert s[..n][1..] == s[1..][..n-1];
      FirstOfPrefix(s[1..], n - 1);
    }
  }

  lemma NoneInPrefix(s: bytes, n: nat)
    requires n <= |s| && FirstSoh(s[..n]) == n
    ensures SOH !in s[..n]
  {
  }

  function Value(b: byte): (v: nat)
    ensures v < 256
  {
    b as nat
  }

  /** One byte more in an eight-bit sum. */
  function Plus(sum: nat, b: byte): (r: nat)
    ensures r < 256
  {
    (sum + Value(b)) % 256
  }

  /** The short checksum: the byte sum, modulo 256. */
  function Sum(s: bytes): (sum: nat)
    ensures sum < 256
  {
    if s == [] then 0 else Plus(Sum(s[..|s|-1]), s[|s|-1])
  }

  lemma {:induction false} SumConcat(s: bytes, t: bytes)
    ensures Sum(s + t) == (Sum(s) + Sum(t)) % 256
    decreases |t|
  {
    if t == [] {
      assert s + t == s;
    } else {
      SumConcat(s, t[..|t|-1]);
      assert (s + t)[..|s + t|-1] == s + t[..|t|-1];
      PlusOn(Sum(s), Sum(t[..|t|-1]), t[|t|-1]);
    }
  }

  lemma ModuloTwice(x: nat, y: nat)
    ensures (x % 256 + y) % 256 == (x + y) % 256
  {
  }

  lemma PlusOn(a: nat, b: nat, c: byte)
    ensures Plus((a + b) % 256, c) == (a + Plus(b, c)) % 256
  {
    hide Value;
    ModuloTwice(a + b, Value(c));
    ModuloTwice(b + Value(c), a);
  }

  /** The CRC a frame carries in its last two bytes, least significant first. */
  function Trailer(lo: byte, hi: byte): bv16 { (lo as bv16) | ((hi as bv16) << 8) }

  lemma TrailerRoundTrip(crc: bv16)
    ensures Trailer(CrcBytes(crc)[0], CrcBytes(crc)[1]) == crc
  {
  }

  predicate UsesCrc(ctrl: byte) { ctrl & CTRL_CRC != 0 }

  /** The integrity check of a whole frame: the size left when the check field is dropped. */
  function Check(frame: bytes): (r: int)
    requires |frame| >= 6
    ensures r == BADCHECK || |frame| - 2 <= r < |frame|
  {
    var n := |frame|;
    if UsesCrc(frame[4]) then
      if Trailer(frame[n-2], frame[n-1]) == Add(PRESET, frame[..n-2]) then n - 2 else BADCHECK
    else
      if Value(frame[n-1]) == Sum(frame[..n-1]) then n - 1 else BADCHECK
  }

  /**
    What a read makes of a stream: the result, the bytes of the frame left at the front of the
    buffer (none claimed for a frame let by), and how much of the stream is used up.
   */
  datatype Outcome = Outcome(code: int, frame: bytes, consumed: nat)

  /** A frame addressed elsewhere, checked as it passes; t starts at its introducer. */
  function LetBy(t: bytes): (o: Outcome)
    requires |t| >= HEADER
    ensures o.consumed <= |t|
  {
    var total := LengthOf(t[2], t[3]);
    if UsesCrc(t[4]) then
      var n := Max(total - 2, HEADER);
      if |t| < n + 2 then Outcome(TIMEOUT, [], |t|)
      else Outcome(if Trailer(t[n], t[n+1]) == Add(PRESET, t[..n]) then FLYBY else BADCHECK, [], n + 2)
    else
      var n := Max(total - 1, HEADER);
      if |t| < n + 1 then Outcome(TIMEOUT, [], |t|)
      else Outcome(if Value(t[n]) == Sum(t[..n]) then FLYBY else BADCHECK, [], n + 1)
  }

  /** A frame to be kept. */
  function Accept(t: bytes): (o: Outcome)
    requires |t| >= HEADER
    ensures |o.frame| <= o.consumed <= |t| && o.frame == t[..|o.frame|] && |o.frame| <= BUFFER_SIZE
  {
    var total := LengthOf(t[2], t[3]);
    if total <= 5 || total > BUFFER_SIZE - HEADER then Outcome(OVERFLOW, t[..HEADER], HEADER)
    else if |t| < total then Outcome(TIMEOUT, t, |t|)
    else Outcome(Check(t[..total]), t[..total], total)
  }

  /** Which frames a reader lets by; the master, at address 0xFF, keeps them all. */
  predicate Elsewhere(me: byte, addr: byte) {
    me != 0xFF && addr != me && addr != 0x7D && addr != 0x7F
  }

  /** readcook as a function of the stream alone. */
  function Receive(me: byte, s: bytes): (o: Outcome)
    ensures o.consumed <= |s| && |o.frame| <= BUFFER_SIZE
  {
    var i := FirstSoh(s);
    var t := s[i..];
    if |t| < HEADER then Outcome(TIMEOUT, t, |s|)
    else
      var o := if Elsewhere(me, t[1]) then LetBy(t) else Accept(t);
      o.(consumed := i + o.consumed)
  }
}
