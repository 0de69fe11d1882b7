/**
  What the byte-at-a-time CRC computes: the remainder of a polynomial division over GF(2)
  by x^16 + x^12 + x^5 + 1, and hence which errors it detects.
 */
module CrcTheory {
  import opened Bytes
  import opened Crc16

  /** A stretch of message bits in transmission order, most significant bit of each byte first. */
  type bits = seq<bool>

  /** The sixteen coefficients of a register, constant term first. */
  type reg = r: seq<bool> | |r| == 16
    witness [false, false, false, false, false, false, false, false,
             false, false, false, false, false, false, false, false]

  // ---------------------------------------------------------------- the bit-serial register

  /** A coefficient of a polynomial held lowest power first. */
  predicate At(q: bits, k: int) { 0 <= k < |q| && q[k] }

  /** The terms of the generator below x^16. */
  predicate Tap(k: int) { k == 0 || k == 5 || k == 12 }

  /** The bit fed back: the register's top bit against the incoming one. */
  predicate Fed(r: reg, bit: bool) { r[15] != bit }

  /** One clock of the shift register. */
  function Shift(r: reg, bit: bool): reg {
    seq(16, k requires 0 <= k < 16 => (k > 0 && r[k - 1]) != (Tap(k) && Fed(r, bit)))
  }

  function Serial(r: reg, u: bits): reg {
    if u == [] then r else Shift(Serial(r, u[..|u|-1]), u[|u|-1])
  }

  lemma SerialSnoc(r: reg, u: bits, b: bool)
    ensures Serial(r, u + [b]) == Shift(Serial(r, u), b)
  {
    assert (u + [b])[..|u|] == u;
  }

  // ---------------------------------------------------------------- words and bytes as bits

  /** The coefficient of x^k in a 16-bit word. */
  function Coef(r: bv16, k: int): bool {
    match k
    case 0 => r & 0x0001 != 0
    case 1 => r & 0x0002 != 0
    case 2 => r & 0x0004 != 0
    case 3 => r & 0x0008 != 0
    case 4 => r & 0x0010 != 0
    case 5 => r & 0x0020 != 0
    case 6 => r & 0x0040 != 0
    case 7 => r & 0x0080 != 0
    case 8 => r & 0x0100 != 0
    case 9 => r & 0x0200 != 0
    case 10 => r & 0x0400 != 0
    case 11 => r & 0x0800 != 0
    case 12 => r & 0x1000 != 0
    case 13 => r & 0x2000 != 0
    case 14 => r & 0x4000 != 0
    case 15 => r & 0x8000 != 0
    case _ => false
  }

  function Word(r: bv16): reg { seq(16, k => Coef(r, k)) }

  /** Bit k of a byte in transmission order. */
  function BitOf(b: byte, k: int): bool {
    match k
    case 0 => b & 0x80 != 0
    case 1 => b & 0x40 != 0
    case 2 => b & 0x20 != 0
    case 3 => b & 0x10 != 0
    case 4 => b & 0x08 != 0
    case 5 => b & 0x04 != 0
    case 6 => b & 0x02 != 0
    case 7 => b & 0x01 != 0
    case _ => false
  }

  /** Coefficient k of a word is the bit worth 2 to the k. */
  lemma CoefByValue(r: bv16, k: nat)
    requires k < 16
    ensures Coef(r, k) <==> (r >> k) & 1 == 1
  {
    match k
    case 0 | 1 | 2 | 3 => Nibble0(r);
    case 4 | 5 | 6 | 7 => Nibble4(r);
    case 8 | 9 | 10 | 11 => Nibble8(r);
    case _ => Nibble12(r);
  }

  lemma Nibble0(r: bv16)
    ensures (Coef(r, 0) <==> (r >> 0) & 1 == 1) && (Coef(r, 1) <==> (r >> 1) & 1 == 1)
    ensures (Coef(r, 2) <==> (r >> 2) & 1 == 1) && (Coef(r, 3) <==> (r >> 3) & 1 == 1)
  {
  }

  lemma Nibble4(r: bv16)
    ensures (Coef(r, 4) <==> (r >> 4) & 1 == 1) && (Coef(r, 5) <==> (r >> 5) & 1 == 1)
    ensures (Coef(r, 6) <==> (r >> 6) & 1 == 1) && (Coef(r, 7) <==> (r >> 7) & 1 == 1)
  {
  }

  lemma Nibble8(r: bv16)
    ensures (Coef(r, 8) <==> (r >> 8) & 1 == 1) && (Coef(r, 9) <==> (r >> 9) & 1 == 1)
    ensures (Coef(r, 10) <==> (r >> 10) & 1 == 1) && (Coef(r, 11) <==> (r >> 11) & 1 == 1)
  {
  }

  lemma Nibble12(r: bv16)
    ensures (Coef(r, 12) <==> (r >> 12) & 1 == 1) && (Coef(r, 13) <==> (r >> 13) & 1 == 1)
    ensures (Coef(r, 14) <==> (r >> 14) & 1 == 1) && (Coef(r, 15) <==> (r >> 15) & 1 == 1)
  {
  }

  /** Bit k of a byte in transmission order is the one worth 2 to the 7 - k. */
  lemma BitByValue(b: byte, k: nat)
    requires k < 8
    ensures BitOf(b, k) <==> (b >> (7 - k)) & 1 == 1
  {
    match k
    case 0 | 1 | 2 | 3 => HighNibble(b);
    case _ => LowNibble(b);
  }

  lemma HighNibble(b: byte)
    ensures (BitOf(b, 0) <==> (b >> 7) & 1 == 1) && (BitOf(b, 1) <==> (b >> 6) & 1 == 1)
    ensures (BitOf(b, 2) <==> (b >> 5) & 1 == 1) && (BitOf(b, 3) <==> (b >> 4) & 1 == 1)
  {
  }

  lemma LowNibble(b: byte)
    ensures (BitOf(b, 4) <==> (b >> 3) & 1 == 1) && (BitOf(b, 5) <==> (b >> 2) & 1 == 1)
    ensures (BitOf(b, 6) <==> (b >> 1) & 1 == 1) && (BitOf(b, 7) <==> (b >> 0) & 1 == 1)
  {
  }

  /** The bits of a stretch, by value: byte by byte, the highest first; and those of a word. */
  lemma BitsByValue(r: bv16, s: bytes, k: nat)
    ensures k < 16 ==> (Word(r)[k] <==> (r >> k) & 1 == 1)
    ensures k < 8 * |s| ==> (Bits(s)[k] <==> (s[k / 8] >> (7 - k % 8)) & 1 == 1)
  {
    if k < 16 {
      CoefByValue(r, k);
    }
    if k < 8 * |s| {
      BitByValue(s[k / 8], k % 8);
    }
  }

  /** The first n bits of byte b. */
  function ByteBits(b: byte, n: nat): (u: bits)
    ensures |u| == n
  {
    seq(n, k => BitOf(b, k))
  }

  function Bits(s: bytes): (u: bits)
    ensures |u| == 8 * |s|
  {
    seq(8 * |s|, k requires 0 <= k < 8 * |s| => BitOf(s[k / 8], k % 8))
  }

  lemma WordDetermines(c: bv16, d: bv16)
    requires Word(c) == Word(d)
    ensures c == d
  {
    var u, v := Word(c), Word(d);
    assert u[0] == v[0] && u[1] == v[1] && u[2] == v[2] && u[3] == v[3];
    assert u[4] == v[4] && u[5] == v[5] && u[6] == v[6] && u[7] == v[7];
    assert u[8] == v[8] && u[9] == v[9] && u[10] == v[10] && u[11] == v[11];
    assert u[12] == v[12] && u[13] == v[13] && u[14] == v[14] && u[15] == v[15];
  }

  lemma ByteBitsDetermine(b: byte, c: byte)
    requires forall k :: 0 <= k < 8 ==> BitOf(b, k) == BitOf(c, k)
    ensures b == c
  {
    assert BitOf(b, 0) == BitOf(c, 0) && BitOf(b, 1) == BitOf(c, 1) && BitOf(b, 2) == BitOf(c, 2);
    assert BitOf(b, 3) == BitOf(c, 3) && BitOf(b, 4) == BitOf(c, 4) && BitOf(b, 5) == BitOf(c, 5);
    assert BitOf(b, 6) == BitOf(c, 6) && BitOf(b, 7) == BitOf(c, 7);
  }

  lemma BitsInjective(s: bytes, t: bytes)
    requires |s| == |t| && Bits(s) == Bits(t)
    ensures s == t
  {
    forall i | 0 <= i < |s|
      ensures s[i] == t[i]
    {
      forall k | 0 <= k < 8
        ensures BitOf(s[i], k) == BitOf(t[i], k)
      {
        assert Bits(s)[8 * i + k] == Bits(t)[8 * i + k];
        assert (8 * i + k) / 8 == i && (8 * i + k) % 8 == k;
      }
      ByteBitsDetermine(s[i], t[i]);
    }
  }

  // ---------------------------------------------------------------- a byte is eight clocks

  /** Bit j of the byte the step first forms: the register's high byte against the new one. */
  predicate Mixed(w: reg, u: bits, j: int)
    requires |u| == 8
  {
    0 <= j < 8 && w[8 + j] != u[7 - j]
  }

  /** Bit j of that byte with its high nibble folded onto its low one. */
  predicate Folded(w: reg, u: bits, j: int)
    requires |u| == 8
  {
    Mixed(w, u, j) != (j < 4 && Mixed(w, u, j + 4))
  }

  /** Coefficient k of the register after i of the eight clocks. */
  predicate Clocked(w: reg, u: bits, i: int, k: int)
    requires |u| == 8
  {
    At(w, k - i) != ((FedAt(w, u, i, i - 1 - k) != FedAt(w, u, i, i + 4 - k)) != FedAt(w, u, i, i + 11 - k))
  }

  /** Clock j < i of the eight feeds back bit 7 - j of the folded byte. */
  predicate FedAt(w: reg, u: bits, i: int, j: int)
    requires |u| == 8
  {
    0 <= j < i && Folded(w, u, 7 - j)
  }

  lemma {:induction false} EightClocks(w: reg, u: bits, i: nat)
    requires |u| == 8 && i <= 8
    ensures forall k :: 0 <= k < 16 ==> Serial(w, u[..i])[k] == Clocked(w, u, i, k)
  {
    if i > 0 {
      EightClocks(w, u, i - 1);
      var q := Serial(w, u[..i-1]);
      assert u[..i][..i-1] == u[..i-1];
      assert q[15] == Clocked(w, u, i - 1, 15);
      assert Fed(q, u[i-1]) == Folded(w, u, 8 - i);
      forall k | 0 <= k < 16
        ensures Serial(w, u[..i])[k] == Clocked(w, u, i, k)
      {
        assert k > 0 ==> q[k - 1] == Clocked(w, u, i - 1, k - 1);
      }
    }
  }

  /** Coefficient k of one byte-at-a-time step, taken on bits. */
  predicate StepCoef(r: bv16, b: byte, k: int) { Clocked(Word(r), ByteBits(b, 8), 8, k) }

  lemma StepBits0(r: bv16, b: byte)
    ensures Coef(Step(r, b), 0) == StepCoef(r, b, 0)
    ensures Coef(Step(r, b), 1) == StepCoef(r, b, 1)
  {
  }

  lemma StepBits2(r: bv16, b: byte)
    ensures Coef(Step(r, b), 2) == StepCoef(r, b, 2)
    ensures Coef(Step(r, b), 3) == StepCoef(r, b, 3)
  {
  }

  lemma StepBits4(r: bv16, b: byte)
    ensures Coef(Step(r, b), 4) == StepCoef(r, b, 4)
    ensures Coef(Step(r, b), 5) == StepCoef(r, b, 5)
  {
  }

  lemma StepBits6(r: bv16, b: byte)
    ensures Coef(Step(r, b), 6) == StepCoef(r, b, 6)
    ensures Coef(Step(r, b), 7) == StepCoef(r, b, 7)
  {
  }

  lemma StepBits8(r: bv16, b: byte)
    ensures Coef(Step(r, b), 8) == StepCoef(r, b, 8)
    ensures Coef(Step(r, b), 9) == StepCoef(r, b, 9)
  {
  }

  lemma StepBits10(r: bv16, b: byte)
    ensures Coef(Step(r, b), 10) == StepCoef(r, b, 10)
    ensures Coef(Step(r, b), 11) == StepCoef(r, b, 11)
  {
  }

  lemma StepBits12(r: bv16, b: byte)
    ensures Coef(Step(r, b), 12) == StepCoef(r, b, 12)
    ensures Coef(Step(r, b), 13) == StepCoef(r, b, 13)
  {
  }

  lemma StepBits14(r: bv16, b: byte)
    ensures Coef(Step(r, b), 14) == StepCoef(r, b, 14)
    ensures Coef(Step(r, b), 15) == StepCoef(r, b, 15)
  {
  }

  lemma StepBits(r: bv16, b: byte, k: nat)
    requires k < 16
    ensures Coef(Step(r, b), k) == StepCoef(r, b, k)
  {
    match k
    case 0 | 1 => StepBits0(r, b);
    case 2 | 3 => StepBits2(r, b);
    case 4 | 5 => StepBits4(r, b);
    case 6 | 7 => StepBits6(r, b);
    case 8 | 9 => StepBits8(r, b);
    case 10 | 11 => StepBits10(r, b);
    case 12 | 13 => StepBits12(r, b);
    case _ => StepBits14(r, b);
  }

  /** The shift-and-xor step is eight clocks of the bit-serial register, high bit first. */
  lemma StepIsEightClocks(r: bv16, b: byte)
    ensures Word(Step(r, b)) == Serial(Word(r), ByteBits(b, 8))
  {
    var w, u := Word(r), ByteBits(b, 8);
    EightClocks(w, u, 8);
    assert u[..8] == u;
    forall k | 0 <= k < 16
      ensures Word(Step(r, b))[k] == Serial(w, u)[k]
    {
      StepBits(r, b, k);
    }
  }

  lemma {:induction false} SerialConcat(r: reg, u: bits, v: bits)
    ensures Serial(r, u + v) == Serial(Serial(r, u), v)
    decreases |v|
  {
    if v == [] {
      assert u + v == u;
    } else {
      SerialConcat(r, u, v[..|v|-1]);
      assert (u + v)[..|u + v|-1] == u + v[..|v|-1];
    }
  }

  /** crc16_add is the bit-serial register, for every start value and every length. */
  lemma {:induction false} AddIsSerial(r: bv16, s: bytes)
    ensures Word(Add(r, s)) == Serial(Word(r), Bits(s))
    decreases |s|
  {
    if s != [] {
      var v, b := s[..|s|-1], s[|s|-1];
      AddIsSerial(r, v);
      assert Bits(s) == Bits(v) + ByteBits(b, 8);
      StepIsEightClocks(Add(r, v), b);
      SerialConcat(Word(r), Bits(v), ByteBits(b, 8));
    }
  }

  // ---------------------------------------------------------------- division by the generator

  /** The coefficient of x^k in (x^16 + x^12 + x^5 + 1) * q. */
  predicate Product(q: bits, k: int) {
    (At(q, k - 16) != At(q, k - 12)) != (At(q, k - 5) != At(q, k))
  }

  /** The coefficient of x^k in the message polynomial, whose first bit is its highest term. */
  predicate Message(u: bits, k: int) { 0 <= k < |u| && u[|u| - 1 - k] }

  /** The coefficient of x^k in r * x^|u| + u * x^16: the message, preset in its first terms. */
  predicate Dividend(r: reg, u: bits, k: int) {
    At(r, k - |u|) != Message(u, k - 16)
  }

  /** Dividend == generator * q + c over GF(2). */
  ghost predicate Divides(r: reg, u: bits, q: bits, c: reg) {
    forall k: int :: Dividend(r, u, k) == (Product(q, k) != At(c, k))
  }

  /** c, of degree below 16, is the remainder of the preset message. */
  ghost predicate IsRemainder(r: reg, u: bits, c: reg) {
    exists q: bits :: Divides(r, u, q, c)
  }

  /** The quotient bits the register produces, the last one lowest. */
  function Quotient(r: reg, u: bits): bits {
    if u == [] then []
    else
      var v := u[..|u|-1];
      [Fed(Serial(r, v), u[|u|-1])] + Quotient(r, v)
  }

  lemma ProductStep(t: bool, q: bits, k: int)
    ensures Product([t] + q, k) == (Product(q, k - 1) != (t && (Tap(k) || k == 16)))
  {
    assert forall j: int :: At([t] + q, j) == if j == 0 then t else At(q, j - 1);
  }

  lemma DividendStep(r: reg, u: bits, k: int)
    requires u != []
    ensures Dividend(r, u, k) ==
            (Dividend(r, u[..|u|-1], k - 1) != (k == 16 && u[|u|-1]))
  {
  }

  /** The register divides: its quotient bits and its final state satisfy the division equation. */
  lemma {:induction false} RegisterDivides(r: reg, u: bits)
    ensures Divides(r, u, Quotient(r, u), Serial(r, u))
    decreases |u|
  {
    if u != [] {
      RegisterDivides(r, u[..|u|-1]);
    }
    forall k: int
      ensures Dividend(r, u, k) == (Product(Quotient(r, u), k) != At(Serial(r, u), k))
    {
      if u != [] {
        var v, b := u[..|u|-1], u[|u|-1];
        DividendStep(r, u, k);
        ProductStep(Fed(Serial(r, v), b), Quotient(r, v), k);
        assert Dividend(r, v, k - 1) == (Product(Quotient(r, v), k - 1) != At(Serial(r, v), k - 1));
      }
    }
  }

  /** Two quotients of the same dividend agree from power j up. */
  lemma {:induction false} QuotientsAgree(r: reg, u: bits, q: bits, c: reg, p: bits, d: reg, j: nat)
    requires Divides(r, u, q, c) && Divides(r, u, p, d)
    ensures forall i :: i >= j ==> At(q, i) == At(p, i)
    decreases |q| + |p| - j
  {
    if j < |q| + |p| {
      QuotientsAgree(r, u, q, c, p, d, j + 1);
      assert Dividend(r, u, j + 16) == (Product(q, j + 16) != At(c, j + 16));
      assert Dividend(r, u, j + 16) == (Product(p, j + 16) != At(d, j + 16));
    }
  }

  lemma RemainderUnique(r: reg, u: bits, q: bits, c: reg, p: bits, d: reg)
    requires Divides(r, u, q, c) && Divides(r, u, p, d)
    ensures c == d
  {
    QuotientsAgree(r, u, q, c, p, d, 0);
    forall k | 0 <= k < 16
      ensures c[k] == d[k]
    {
      assert Dividend(r, u, k) == (Product(q, k) != At(c, k));
      assert Dividend(r, u, k) == (Product(p, k) != At(d, k));
      assert Product(q, k) == Product(p, k);
    }
  }

  /**
    crc16_add computes exactly the remainder of the message, preset in its first sixteen
    terms, on division by x^16 + x^12 + x^5 + 1.
   */
  lemma AddIsTheRemainder(r: bv16, s: bytes, c: bv16)
    ensures Add(r, s) == c <==> IsRemainder(Word(r), Bits(s), Word(c))
  {
    var w, u := Word(r), Bits(s);
    AddIsSerial(r, s);
    RegisterDivides(w, u);
    if IsRemainder(w, u, Word(c)) {
      var q :| Divides(w, u, q, Word(c));
      RemainderUnique(w, u, q, Word(c), Quotient(w, u), Serial(w, u));
      WordDetermines(Add(r, s), c);
    }
  }

  // ---------------------------------------------------------------- error bursts

  /** The coefficientwise difference of two registers. */
  function Minus(r: reg, q: reg): reg { seq(16, k requires 0 <= k < 16 => r[k] != q[k]) }

  /** The difference of two runs after i bits. */
  function Diff(r: reg, u: bits, v: bits, i: nat): reg
    requires i <= |u| && i <= |v|
  {
    Minus(Serial(r, u[..i]), Serial(r, v[..i]))
  }

  /** The register is linear, so a difference evolves like a register fed the bit errors. */
  lemma DiffStep(r: reg, u: bits, v: bits, i: nat)
    requires i < |u| && i < |v|
    ensures Diff(r, u, v, i + 1) == Shift(Diff(r, u, v, i), u[i] != v[i])
  {
    assert u[..i+1] == u[..i] + [u[i]] && v[..i+1] == v[..i] + [v[i]];
    SerialSnoc(r, u[..i], u[i]);
    SerialSnoc(r, v[..i], v[i]);
  }

  /** The low n coefficients are zero. */
  predicate LowClear(d: reg, n: int) { forall k :: 0 <= k < n && k < 16 ==> !d[k] }

  /** Looking back one clock from a difference whose low coefficients vanish. */
  lemma ShiftBack(d: reg, e: bool, n: int)
    requires 1 <= n <= 16 && LowClear(Shift(d, e), n)
    ensures LowClear(d, n - 1)
    ensures n == 16 && !e ==> LowClear(d, 16)
  {
    var q := Shift(d, e);
    assert !q[0];
    forall k | 0 <= k < n - 1
      ensures !d[k]
    {
      assert !q[k + 1];
    }
  }

  lemma {:induction false} DiffBack(r: reg, u: bits, v: bits, w: nat, m: nat)
    requires |u| == |v| && m <= w <= |u| && m <= 16
    requires LowClear(Diff(r, u, v, w), 16)
    ensures LowClear(Diff(r, u, v, w - m), 16 - m)
    decreases m
  {
    if m > 0 {
      DiffBack(r, u, v, w, m - 1);
      DiffStep(r, u, v, w - m);
      ShiftBack(Diff(r, u, v, w - m), u[w-m] != v[w-m], 17 - m);
    }
  }

  lemma {:induction false} EqualTail(r: reg, u: bits, v: bits, w: nat)
    requires |u| == |v| && w <= |u|
    requires forall k :: w <= k < |u| ==> u[k] == v[k]
    requires LowClear(Diff(r, u, v, |u|), 16)
    ensures LowClear(Diff(r, u, v, w), 16)
    decreases |u| - w
  {
    if w < |u| {
      EqualTail(r, u, v, w + 1);
      DiffStep(r, u, v, w);
      ShiftBack(Diff(r, u, v, w), false, 16);
    }
  }

  lemma {:induction false} FirstDifference(u: bits, v: bits) returns (f: nat)
    requires |u| == |v| && u != v
    ensures f < |u| && u[f] != v[f] && u[..f] == v[..f]
  {
    if u[|u|-1] != v[|v|-1] && u[..|u|-1] == v[..|v|-1] {
      f := |u| - 1;
    } else {
      assert u == u[..|u|-1] + [u[|u|-1]] && v == v[..|v|-1] + [v[|v|-1]];
      f := FirstDifference(u[..|u|-1], v[..|v|-1]);
      assert u[..f] == u[..|u|-1][..f] && v[..f] == v[..|v|-1][..f];
    }
  }

  /** The first wrong bit turns equal registers into registers that differ in the constant term. */
  lemma FirstErrorShows(r: reg, u: bits, v: bits, f: nat)
    requires f < |u| && f < |v| && u[..f] == v[..f] && u[f] != v[f]
    ensures Diff(r, u, v, f + 1)[0]
  {
    DiffStep(r, u, v, f);
    var d, e := Diff(r, u, v, f), u[f] != v[f];
    assert !d[15] && Fed(d, e) && Shift(d, e)[0];
  }

  lemma EqualRunsEnd(r: reg, u: bits, v: bits)
    requires |u| == |v| && Serial(r, u) == Serial(r, v)
    ensures LowClear(Diff(r, u, v, |u|), 16)
  {
    assert u[..|u|] == u && v[..|v|] == v;
  }

  /** No error confined to sixteen consecutive bits leaves the CRC as it was. */
  lemma BurstChangesSerial(r: reg, u: bits, v: bits, j: nat)
    requires |u| == |v| && u != v
    requires forall k :: 0 <= k < |u| && (k < j || j + 16 <= k) ==> u[k] == v[k]
    ensures Serial(r, u) != Serial(r, v)
  {
    var f := FirstDifference(u, v);
    var w := Min(j + 16, |u|);
    FirstErrorShows(r, u, v, f);
    if Serial(r, u) == Serial(r, v) {
      EqualRunsEnd(r, u, v);
      EqualTail(r, u, v, w);
      DiffBack(r, u, v, w, w - (f + 1));
      assert false;
    }
  }

  ghost predicate ConfinedTo(s: bytes, t: bytes, j: nat)
    requires |s| == |t|
  {
    forall k :: 0 <= k < 8 * |s| && (k < j || j + 16 <= k) ==> Bits(s)[k] == Bits(t)[k]
  }

  /** A burst: the two stretches differ, and only within sixteen consecutive bits. */
  ghost predicate Burst(s: bytes, t: bytes) {
    |s| == |t| && s != t && exists j: nat :: ConfinedTo(s, t, j)
  }

  lemma BurstChangesCrc(r: bv16, s: bytes, t: bytes)
    requires Burst(s, t)
    ensures Add(r, s) != Add(r, t)
  {
    var j: nat :| ConfinedTo(s, t, j);
    assert Bits(s) != Bits(t) by {
      if Bits(s) == Bits(t) {
        BitsInjective(s, t);
      }
    }
    AddIsSerial(r, s);
    AddIsSerial(r, t);
    BurstChangesSerial(Word(r), Bits(s), Bits(t), j);
  }

  /** One altered byte, or two adjacent ones, is a burst. */
  lemma TwoBytesAreABurst(s: bytes, t: bytes, i: nat)
    requires |s| == |t| && s != t
    requires forall k :: 0 <= k < |s| && k != i && k != i + 1 ==> s[k] == t[k]
    ensures Burst(s, t)
  {
    assert ConfinedTo(s, t, 8 * i);
  }

  // ---------------------------------------------------------------- errors of odd weight

  /** Whether an odd number of the first n bits is set. */
  function OddTo(u: bits, n: nat): bool
    requires n <= |u|
  {
    if n == 0 then false else OddTo(u, n - 1) != u[n - 1]
  }

  /** Whether the generator has an odd number of terms below x^n, for n up to 16. */
  predicate TapsOdd(n: int) { 1 <= n <= 5 || n >= 13 }

  lemma {:induction false} ShiftParityTo(r: reg, bit: bool, n: nat)
    requires 1 <= n <= 16
    ensures OddTo(Shift(r, bit), n) == (OddTo(r, n - 1) != (TapsOdd(n) && Fed(r, bit)))
    decreases n
  {
    if n > 1 {
      ShiftParityTo(r, bit, n - 1);
    } else {
      assert OddTo(Shift(r, bit), 1) == Shift(r, bit)[0];
    }
  }

  /** The generator is divisible by x + 1: a clock changes the parity of the register by the bit fed in. */
  lemma {:induction false} SerialParity(r: reg, u: bits)
    ensures OddTo(Serial(r, u), 16) == (OddTo(r, 16) != OddTo(u, |u|))
    decreases |u|
  {
    if u != [] {
      var v, b := u[..|u|-1], u[|u|-1];
      SerialParity(r, v);
      OddOfPrefix(u, |v|, |v|);
      ShiftParityTo(Serial(r, v), b, 16);
    }
  }

  lemma {:induction false} OddOfPrefix(u: bits, m: nat, n: nat)
    requires n <= m <= |u|
    ensures OddTo(u[..m], n) == OddTo(u, n)
  {
    if n > 0 {
      OddOfPrefix(u, m, n - 1);
    }
  }

  /** The wrong bits of a stretch. */
  function Errors(u: bits, v: bits): bits
    requires |u| == |v|
  {
    seq(|u|, i requires 0 <= i < |u| => u[i] != v[i])
  }

  lemma {:induction false} ErrorParity(u: bits, v: bits, n: nat)
    requires |u| == |v| && n <= |u|
    ensures OddTo(Errors(u, v), n) == (OddTo(u, n) != OddTo(v, n))
  {
    if n > 0 {
      ErrorParity(u, v, n - 1);
    }
  }

  /** An odd number of wrong bits, wherever they are. */
  predicate OddError(s: bytes, t: bytes) {
    |s| == |t| && OddTo(Errors(Bits(s), Bits(t)), 8 * |s|)
  }

  /** No error of an odd number of bits leaves the CRC as it was. */
  lemma OddErrorChangesCrc(r: bv16, s: bytes, t: bytes)
    requires OddError(s, t)
    ensures Add(r, s) != Add(r, t)
  {
    hide Step, Word;
    AddIsSerial(r, s);
    AddIsSerial(r, t);
    SerialParity(Word(r), Bits(s));
    SerialParity(Word(r), Bits(t));
    ErrorParity(Bits(s), Bits(t), 8 * |s|);
  }
}
