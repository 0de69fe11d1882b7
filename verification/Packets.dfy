/**
  The packet format by value: what stands in each byte written, and what becomes of any stream
  read, in numbers alone.
 */
module Packets {
  import opened Bytes
  import opened Crc16
  import opened Frame
  import opened FrameTheory

  // ---------------------------------------------------------------- bytes as numbers

  lemma LowSevenBits(b: byte)
    ensures (b & 0x7F) as nat == b as nat % 128
  {
  }

  lemma WithCrcBit(b: byte)
    requires b <= 3
    ensures (b | 0x04) as nat == b as nat + 4
  {
    assert b | 0x04 == b + 4 && (b + 4) as nat == b as nat + 4;
  }

  lemma LowByteFirst(lo: byte, hi: byte)
    ensures ((lo as bv16) | ((hi as bv16) << 8)) as nat == lo as nat + 256 * (hi as nat)
  {
  }

  lemma TrailerIsNumber(lo: byte, hi: byte)
    ensures Trailer(lo, hi) as nat == lo as nat + 256 * (hi as nat)
  {
    TrailerIs(lo, hi);
    LowByteFirst(lo, hi);
    hide Trailer;
  }

  lemma TrailerIs(lo: byte, hi: byte)
    ensures Trailer(lo, hi) == (lo as bv16) | ((hi as bv16) << 8)
  {
  }

  lemma WordBack(w: bv16)
    ensures w as nat as bv16 == w
  {
  }

  lemma WordIsItsNumber(v: bv16, w: bv16)
    ensures v as nat == w as nat <==> v == w
  {
    WordBack(v);
    WordBack(w);
  }

  /** A word compared with two bytes, by value. */
  lemma TrailerMatches(lo: byte, hi: byte, crc: bv16)
    ensures Trailer(lo, hi) == crc <==> lo as nat + 256 * (hi as nat) == crc as nat
  {
    TrailerIsNumber(lo, hi);
    hide Trailer;
    WordIsItsNumber(Trailer(lo, hi), crc);
  }

  lemma LengthByValue(n: nat)
    ensures LowByte(n) as nat + 256 * (HighByte(n) as nat) == n % 0x1_0000
  {
    BytesOfLength(n);
    hide LowByte, HighByte;
    Digits(n % 0x1_0000);
    SameDigits(n / 0x1_0000, n % 0x1_0000);
  }

  lemma SameDigits(q: nat, r: nat)
    ensures var n := 0x1_0000 * q + r; n % 256 == r % 256 && n / 256 % 256 == r / 256 % 256
  {
    var n := 0x1_0000 * q + r;
    assert n == 256 * (256 * q + r / 256) + r % 256;
    assert n / 256 == 256 * q + r / 256;
  }

  /** The arithmetic total of the bytes. */
  function Total(s: bytes): nat {
    if s == [] then 0 else Total(s[..|s|-1]) + s[|s|-1] as nat
  }

  lemma {:induction false} SumIsTotal(s: bytes)
    ensures Sum(s) == Total(s) % 256
    decreases |s|
  {
    if s != [] {
      SumIsTotal(s[..|s|-1]);
      PlusByValue(Sum(s[..|s|-1]), s[|s|-1]);
      ModuloTwice(Total(s[..|s|-1]), Value(s[|s|-1]));
    }
  }

  lemma PlusByValue(sum: nat, b: byte)
    ensures Plus(sum, b) == (sum + b as nat) % 256 && Value(b) == b as nat
  {
  }

  // ---------------------------------------------------------------- the writer

  /** A frame on the wire, byte by byte. */
  lemma WrittenByValue(addr: byte, ctrl: byte, payload: bytes)
    ensures var f := Encode(addr, ctrl, payload); var n := |payload| + 7;
            && |f| == n
            && f[0] == 0x53
            && f[1] as nat == addr as nat % 128
            && f[2] as nat + 256 * (f[3] as nat) == n % 0x1_0000
            && f[4] == ctrl | 0x04 && (ctrl <= 3 ==> f[4] as nat == ctrl as nat + 4)
            && f[5..n-2] == payload
            && f[n-2] as nat + 256 * (f[n-1] as nat) == Add(0x1D0F, f[..n-2]) as nat
  {
    var f, head := Encode(addr, ctrl, payload), Covered(addr, ctrl, payload);
    var n := |f|;
    var crc := Add(PRESET, head);
    LowSevenBits(addr);
    if ctrl <= 3 {
      WithCrcBit(ctrl);
    }
    LengthByValue(n);
    TrailerRoundTrip(crc);
    TrailerIsNumber(CrcBytes(crc)[0], CrcBytes(crc)[1]);
    hide Add, CrcBytes, LowByte, HighByte, Trailer;
    assert f[..n-2] == head && f[5..n-2] == payload;
    assert f[n-2] == CrcBytes(crc)[0] && f[n-1] == CrcBytes(crc)[1];
  }

  /** The frame stands between idle bytes, as many as configured. */
  lemma PaddedByValue(lead: int, trail: int, f: bytes)
    ensures var p, a := Padded(lead, trail, f), if lead > 0 then lead else 0;
            && |p| == a + |f| + (if trail > 0 then trail else 0)
            && p[a..a+|f|] == f
            && forall k :: 0 <= k < a || a + |f| <= k < |p| ==> p[k] == 0xFF
  {
  }

  // ---------------------------------------------------------------- the reader

  /** The length a header announces. */
  function Announced(t: bytes): nat
    requires |t| >= 5
  {
    t[2] as nat + 256 * (t[3] as nat)
  }

  /** The last two of the first n bytes, low one first, are the CRC of the bytes before them. */
  predicate CrcFits(t: bytes, n: nat)
    requires 2 <= n <= |t|
  {
    t[n-2] as nat + 256 * (t[n-1] as nat) == Add(0x1D0F, t[..n-2]) as nat
  }

  /** The last of the first n bytes is the total of the bytes before it, modulo 256. */
  predicate SumFits(t: bytes, n: nat)
    requires 1 <= n <= |t|
  {
    t[n-1] as nat == Total(t[..n-1]) % 256
  }

  /** The header says that a CRC follows. */
  predicate CrcSaid(t: bytes)
    requires |t| >= 5
  {
    t[4] & 0x04 != 0
  }

  lemma CrcFitsIs(t: bytes, n: nat)
    requires 2 <= n <= |t|
    ensures CrcFits(t, n) <==> Trailer(t[n-2], t[n-1]) == Add(PRESET, t[..n-2])
  {
    TrailerMatches(t[n-2], t[n-1], Add(PRESET, t[..n-2]));
  }

  lemma SumFitsIs(t: bytes, n: nat)
    requires 1 <= n <= |t|
    ensures SumFits(t, n) <==> Value(t[n-1]) == Sum(t[..n-1])
  {
    SumIsTotal(t[..n-1]);
    PlusByValue(0, t[n-1]);
    hide Total, Sum, Value;
  }

  lemma AnnouncedIs(t: bytes)
    requires |t| >= 5
    ensures Announced(t) == LengthOf(t[2], t[3]) && (CrcSaid(t) <==> UsesCrc(t[4]))
  {
  }

  /** The integrity check of a whole frame, by value. */
  lemma CheckByValue(f: bytes)
    requires |f| >= 6
    ensures var n := |f|;
            Check(f) == if CrcSaid(f) then (if CrcFits(f, n) then n - 2 else -6)
                        else (if SumFits(f, n) then n - 1 else -6)
  {
    hide Add, Trailer, Sum, Value, CrcFits, SumFits, CrcSaid, UsesCrc;
    CrcFitsIs(f, |f|);
    SumFitsIs(f, |f|);
    AnnouncedIs(f);
  }

  lemma WhoseByValue(me: byte, addr: byte)
    ensures Elsewhere(me, addr) <==> me != 0xFF && addr != me && addr != 0x7D && addr != 0x7F
  {
  }

  lemma StartsHere(noise: bytes, t: bytes)
    requires 0x53 !in noise && (t == [] || t[0] == 0x53)
    ensures FirstSoh(noise + t) == |noise| && (noise + t)[|noise|..] == t
  {
    FirstSohSkips(noise, t);
  }

  /** A stream without a whole header behind its first introducer times out and is used up. */
  lemma NothingByValue(me: byte, noise: bytes, t: bytes)
    requires 0x53 !in noise && |t| < 5 && (t == [] || t[0] == 0x53)
    ensures Receive(me, noise + t).code == -1 && Receive(me, noise + t).consumed == |noise| + |t|
  {
    StartsHere(noise, t);
    ReadGivesOut(me, noise + t);
  }

  /**
    A message for this station: every station takes its own address, 0x7D and 0x7F, and the master
    at 0xFF takes them all.
   */
  lemma KeptByValue(me: byte, noise: bytes, t: bytes)
    requires 0x53 !in noise && |t| >= 5 && t[0] == 0x53
    requires me == 0xFF || t[1] == me || t[1] == 0x7D || t[1] == 0x7F
    ensures var total, o := Announced(t), Receive(me, noise + t);
            if total < 6 || total > 266 then o == Outcome(-3, t[..5], |noise| + 5)
            else if |t| < total then o == Outcome(-1, t, |noise| + |t|)
            else
              && o.frame == t[..total] && o.consumed == |noise| + total
              && o.code == if CrcSaid(t) then (if CrcFits(t, total) then total - 2 else -6)
                           else (if SumFits(t, total) then total - 1 else -6)
  {
    hide Receive, FirstSoh, LetBy, Accept, Elsewhere, Announced, CrcFits, SumFits, CrcSaid;
    StartsHere(noise, t);
    ReadFrom(me, noise + t, t);
    WhoseByValue(me, t[1]);
    AcceptByValue(t);
  }

  lemma AcceptByValue(t: bytes)
    requires |t| >= 5
    ensures var total, o := Announced(t), Accept(t);
            if total < 6 || total > 266 then o == Outcome(-3, t[..5], 5)
            else if |t| < total then o == Outcome(-1, t, |t|)
            else
              && o.frame == t[..total] && o.consumed == total
              && o.code == if CrcSaid(t) then (if CrcFits(t, total) then total - 2 else -6)
                           else (if SumFits(t, total) then total - 1 else -6)
  {
    hide LengthOf, Check, CrcFits, SumFits, CrcSaid, Announced;
    AnnouncedIs(t);
    var total := Announced(t);
    if 6 <= total <= |t| {
      PrefixFits(t, total);
      CheckByValue(t[..total]);
    }
  }

  lemma PrefixFits(t: bytes, n: nat)
    requires 6 <= n <= |t|
    ensures var f := t[..n];
            CrcFits(f, n) == CrcFits(t, n) && SumFits(f, n) == SumFits(t, n) && CrcSaid(f) == CrcSaid(t)
  {
    hide Add, Total;
    var f := t[..n];
    assert f[..n-2] == t[..n-2] && f[..n-1] == t[..n-1];
  }

  /** A message for another station is taken off the stream and checked, whatever its size. */
  lemma LetByByValue(me: byte, noise: bytes, t: bytes)
    requires 0x53 !in noise && |t| >= 5 && t[0] == 0x53
    requires me != 0xFF && t[1] != me && t[1] != 0x7D && t[1] != 0x7F
    ensures var n: nat := if CrcSaid(t) then (if Announced(t) < 7 then 7 else Announced(t))
                          else (if Announced(t) < 6 then 6 else Announced(t));
            var o := Receive(me, noise + t);
            if |t| < n then o.code == -1 && o.consumed == |noise| + |t|
            else
              && o.consumed == |noise| + n
              && o.code == if CrcSaid(t) then (if CrcFits(t, n) then -7 else -6)
                           else (if SumFits(t, n) then -7 else -6)
  {
    hide Receive, FirstSoh, LetBy, Accept, Elsewhere, Announced, CrcFits, SumFits, CrcSaid;
    StartsHere(noise, t);
    ReadFrom(me, noise + t, t);
    WhoseByValue(me, t[1]);
    PassedByValue(t);
  }

  lemma PassedByValue(t: bytes)
    requires |t| >= 5
    ensures var n: nat := if CrcSaid(t) then (if Announced(t) < 7 then 7 else Announced(t))
                          else (if Announced(t) < 6 then 6 else Announced(t));
            var o := LetBy(t);
            if |t| < n then o.code == -1 && o.consumed == |t|
            else
              && o.consumed == n
              && o.code == if CrcSaid(t) then (if CrcFits(t, n) then -7 else -6)
                           else (if SumFits(t, n) then -7 else -6)
  {
    hide Announced, CrcFits, SumFits, CrcSaid, LengthOf, UsesCrc, Add, Trailer, Sum, Value;
    AnnouncedIs(t);
    var n := if CrcSaid(t) then (if Announced(t) < 7 then 7 else Announced(t))
             else (if Announced(t) < 6 then 6 else Announced(t));
    if n <= |t| {
      CrcFitsIs(t, n);
      SumFitsIs(t, n);
    }
  }

  // ---------------------------------------------------------------- one frame in full

  lemma OneStep(s: bytes, b: byte, crc: bv16)
    requires Add(0x1D0F, s) == crc
    ensures Add(0x1D0F, s + [b]) == Step(crc, b)
  {
    assert (s + [b])[..|s|] == s;
  }

  lemma PollSteps()
    ensures Step(0x1D0F, 0x53) == 0xA60A && Step(0xA60A, 0x01) == 0xCF0D && Step(0xCF0D, 0x08) == 0xA4AB
    ensures Step(0xA4AB, 0x00) == 0x5E6E && Step(0x5E6E, 0x04) == 0x95BF && Step(0x95BF, 0x60) == 0x00BA
  {
  }

  /** The plain poll of slave 1 under number 0, to the last byte. */
  lemma PollFrame()
    ensures Encode(1, 0, [0x60]) == [0x53, 0x01, 0x08, 0x00, 0x04, 0x60, 0xBA, 0x00]
  {
    PollSteps();
    PollHead();
    hide Step, Add, Covered, CrcBytes;
    assert Add(0x1D0F, []) == 0x1D0F by { NoBytes(); }
    OneStep([], 0x53, 0x1D0F);
    assert [] + [0x53 as byte] == [0x53];
    OneStep([0x53], 0x01, 0xA60A);
    assert [0x53 as byte] + [0x01] == [0x53, 0x01];
    OneStep([0x53, 0x01], 0x08, 0xCF0D);
    assert [0x53 as byte, 0x01] + [0x08] == [0x53, 0x01, 0x08];
    OneStep([0x53, 0x01, 0x08], 0x00, 0xA4AB);
    assert [0x53 as byte, 0x01, 0x08] + [0x00] == [0x53, 0x01, 0x08, 0x00];
    OneStep([0x53, 0x01, 0x08, 0x00], 0x04, 0x5E6E);
    assert [0x53 as byte, 0x01, 0x08, 0x00] + [0x04] == [0x53, 0x01, 0x08, 0x00, 0x04];
    OneStep([0x53, 0x01, 0x08, 0x00, 0x04], 0x60, 0x95BF);
    assert [0x53 as byte, 0x01, 0x08, 0x00, 0x04] + [0x60] == [0x53, 0x01, 0x08, 0x00, 0x04, 0x60];
  }

  lemma NoBytes()
    ensures Add(0x1D0F, []) == 0x1D0F
  {
  }

  lemma PollHead()
    ensures Covered(1, 0, [0x60]) == [0x53, 0x01, 0x08, 0x00, 0x04, 0x60]
    ensures CrcBytes(0x00BA) == [0xBA, 0x00]
  {
    assert LowByte(8) == 0x08 && HighByte(8) == 0x00;
  }
}
