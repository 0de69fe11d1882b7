/** The hex printer and reader of blob.cpp, over character streams. */
module BlobHex {
  import opened Bytes

  /** An output stream: what has been written, and the width and fill of the next insertion. */
  class Ostream {
    var text: string
    var width: int
    var fill: char

    constructor (width: int, fill: char)
      ensures text == "" && this.width == width && this.fill == fill
    {
      this.text, this.width, this.fill := "", width, fill;
    }

    /** Insert a string, padded on the left to the width, which is used up by it. */
    method Insert(s: string)
      modifies this`text, this`width
      ensures text == old(text) + Repeat(fill, old(width) - |s|) + s && width == 0
    {
      text, width := text + Repeat(fill, width - |s|) + s, 0;
    }
  }

  /** An input stream: what is left to read, and whether reading may go on. */
  class Istream {
    var rest: string
    var good: bool

    constructor (rest: string)
      ensures this.rest == rest && good
    {
      this.rest, this.good := rest, true;
    }

    /** The next character's code; past the end the stream fails. */
    method Get() returns (c: int)
      modifies this
      ensures var ok := old(good) && old(rest) != "";
              && good == ok
              && (ok ==> c == old(rest)[0] as int && rest == old(rest)[1..])
              && (!ok ==> c == -1 && rest == old(rest))
    {
      if good && rest != "" {
        c, rest := rest[0] as int, rest[1..];
      } else {
        c, good := -1, false;
      }
    }

    /** Put a character back; nothing happens to a stream that has failed. */
    method Putback(c: char)
      modifies this`rest
      ensures good == old(good) && rest == if good then [c] + old(rest) else old(rest)
    {
      if good {
        rest := [c] + rest;
      }
    }
  }

  function Repeat(c: char, n: int): (s: string)
    ensures |s| == Max(n, 0) && forall k :: 0 <= k < |s| ==> s[k] == c
  {
    seq(Max(n, 0), _ => c)
  }

  // ---------------------------------------------------------------- digits

  predicate IsHex(c: char) { '0' <= c <= '9' || 'A' <= c <= 'F' || 'a' <= c <= 'f' }

  function Upper(c: char): char {
    if 'a' <= c <= 'z' then (c as int - 'a' as int + 'A' as int) as char else c
  }

  /** The value of a digit. */
  function Digit(c: char): (d: nat)
    requires IsHex(c)
    ensures d < 16
  {
    if c <= '9' then c as int - '0' as int
    else if c <= 'F' then c as int - 'A' as int + 10
    else c as int - 'a' as int + 10
  }

  function HexChar(d: nat): (c: char)
    requires d < 16
    ensures IsHex(c) && Upper(c) == c && Digit(c) == d
  {
    if d < 10 then ('0' as int + d) as char else ('A' as int + d - 10) as char
  }

  predicate AllHex(s: string) { forall k :: 0 <= k < |s| ==> IsHex(s[k]) }

  /** Two upper-case digits for an octet. */
  function Pair(x: octet): (s: string)
    ensures |s| == 2 && AllHex(s)
  {
    [HexChar(x / 16), HexChar(x % 16)]
  }

  /** The octet two digits stand for. */
  function Octet(c: char, d: char): octet
    requires IsHex(c) && IsHex(d)
  {
    16 * Digit(c) + Digit(d)
  }

  lemma OctetOfPair(x: octet)
    ensures Octet(Pair(x)[0], Pair(x)[1]) == x
  {
  }

  lemma PairOfOctet(c: char, d: char)
    requires IsHex(c) && IsHex(d)
    ensures Pair(Octet(c, d)) == [Upper(c), Upper(d)]
  {
    assert Octet(c, d) / 16 == Digit(c) && Octet(c, d) % 16 == Digit(d);
  }

  /** The first digit of x after a given one makes x out of step, unless both are zero. */
  lemma ZeroBefore(x: octet)
    ensures Octet('0', Pair(x)[0]) == x <==> x == 0
    ensures Pair(0) == ['0', '0'] && IsHex('0')
  {
  }

  // ---------------------------------------------------------------- the texts

  /** The octets' digits. */
  function Hex(b: seq<octet>): (s: string)
    ensures |s| == 2 * |b| && AllHex(s)
  {
    hide Pair, IsHex;
    if b == [] then "" else Hex(b[..|b|-1]) + Pair(b[|b|-1])
  }

  /** The octets of a run of digits, a last odd digit ignored. */
  function Unhex(s: string): (b: seq<octet>)
    requires AllHex(s)
    ensures |b| == |s| / 2
  {
    if |s| < 2 then [] else [Octet(s[0], s[1])] + Unhex(s[2..])
  }

  /** How many hex digits a text starts with. */
  function Run(s: string): (n: nat)
    ensures n <= |s| && AllHex(s[..n])
    ensures n < |s| ==> !IsHex(s[n])
  {
    hide IsHex;
    if s == "" || !IsHex(s[0]) then 0
    else
      var n := 1 + Run(s[1..]);
      assert s[..n] == [s[0]] + s[1..][..n-1];
      n
  }

  // ---------------------------------------------------------------- the texts against a table

  /** The sixteen digits, and those that may also be written small. */
  lemma DigitsByTable(c: char, v: nat)
    ensures IsHex(c) && Digit(c) == v <==> v < 16 && (c == "0123456789ABCDEF"[v] || c == "0123456789abcdef"[v])
    ensures v < 16 ==> HexChar(v) == "0123456789ABCDEF"[v]
    ensures v < 16 ==> Upper("0123456789abcdef"[v]) == Upper("0123456789ABCDEF"[v]) == "0123456789ABCDEF"[v]
  {
  }

  /** Octet i is printed as the digit worth sixteen and the digit worth one, in that order. */
  lemma {:induction false} HexByTable(b: seq<octet>, i: nat)
    requires i < |b|
    ensures Hex(b)[2 * i] == "0123456789ABCDEF"[b[i] / 16]
    ensures Hex(b)[2 * i + 1] == "0123456789ABCDEF"[b[i] % 16]
    decreases |b|
  {
    if i < |b| - 1 {
      HexByTable(b[..|b|-1], i);
    } else {
      DigitsByTable('0', b[i] / 16);
      DigitsByTable('0', b[i] % 16);
    }
  }

  /** Octet i read is worth sixteen times its first digit and its second, large or small. */
  lemma {:induction false} UnhexByTable(s: string, i: nat, x: nat, y: nat)
    requires AllHex(s) && 2 * i + 1 < |s| && x < 16 && y < 16
    requires s[2 * i] == "0123456789ABCDEF"[x] || s[2 * i] == "0123456789abcdef"[x]
    requires s[2 * i + 1] == "0123456789ABCDEF"[y] || s[2 * i + 1] == "0123456789abcdef"[y]
    ensures Unhex(s)[i] == 16 * x + y
  {
    if i > 0 {
      UnhexByTable(s[2..], i - 1, x, y);
    } else {
      DigitsByTable(s[0], x);
      DigitsByTable(s[1], y);
    }
  }

  // ---------------------------------------------------------------- operator<<

  /** What printing leaves in a stream of some width: the delimiter, though empty, takes the width. */
  function Printed(b: seq<octet>, width: int): string {
    if b == [] then Repeat('0', if width > 0 then 2 * width - 1 else 0)
    else Repeat('0', width) + Hex(b) + Repeat('0', width - 2 * |b|)
  }

  /**
    The width shows as that many zeros before the digits, and zeros behind them up to it; with
    nothing to print, one less than twice as many in all.
   */
  lemma PrintedByValue(b: seq<octet>, width: nat)
    ensures var p, n := Printed(b, width), 2 * |b|;
            if b == [] then
              |p| == (if width == 0 then 0 else 2 * width - 1) && forall k :: 0 <= k < |p| ==> p[k] == '0'
            else
              && |p| == (if width < n then width + n else 2 * width)
              && p[width..width+n] == Hex(b)
              && forall k :: 0 <= k < width || width + n <= k < |p| ==> p[k] == '0'
  {
    hide Hex;
  }

  method Print(out: Ostream, data: seq<octet>)
    modifies out
    ensures out.text == old(out.text) + Printed(data, old(out.width))
    ensures out.width == 0 && out.fill == old(out.fill)
  {
    hide Hex, AllHex;
    var oldfill := out.fill;
    out.fill := '0';
    var oldw := out.width;
    PrintOctets(out, data);
    var w := 2 * |data|;
    ghost var before := out.text;
    while w < oldw
      invariant 2 * |data| <= w && (w <= oldw || w == 2 * |data|) && out.fill == '0'
      invariant out.width == if w == 0 then oldw else 0
      invariant out.text == before + Repeat('0', if data == [] && w > 0 then oldw - 1 + w else w - 2 * |data|)
      decreases oldw - w
    {
      out.Insert("0");
      w := w + 1;
    }
    out.fill := oldfill;
    out.width := 0;
  }

  method PrintOctets(out: Ostream, data: seq<octet>)
    requires out.fill == '0'
    modifies out`text, out`width
    ensures out.text == old(out.text) + (if data == [] then "" else Repeat('0', old(out.width))) + Hex(data)
    ensures out.width == if data == [] then old(out.width) else 0
  {
    hide Pair, IsHex;
    var delim := "";
    var i := 0;
    assert data[..0] == [];
    while i < |data|
      invariant 0 <= i <= |data|
      invariant out.width == if i == 0 then old(out.width) else 0
      invariant out.text == old(out.text) + (if i == 0 then "" else Repeat('0', old(out.width))) + Hex(data[..i])
    {
      out.Insert(delim);
      out.width := 2;
      InsertHex(out, data[i]);
      assert data[..i+1][..i] == data[..i];
      i := i + 1;
    }
    assert data[..|data|] == data;
  }

  /** Insert a number in upper-case hex. */
  method InsertHex(out: Ostream, x: octet)
    requires out.width == 2 && out.fill == '0'
    modifies out`text, out`width
    ensures out.text == old(out.text) + Pair(x) && out.width == 0
  {
    var s := if x < 16 then [HexChar(x)] else [HexChar(x / 16), HexChar(x % 16)];
    out.Insert(s);
  }

  // ---------------------------------------------------------------- operator>>

  /** The value of one character code, as the reader computes it. */
  function Value(c: int): int {
    var u := if 'a' as int <= c <= 'z' as int then c - 'a' as int + 'A' as int else c;
    var v := u - '0' as int;
    if v > 9 then v - ('A' as int - '9' as int - 1) else v
  }

  lemma ValueIsDigit(c: char)
    requires IsHex(c)
    ensures Value(c as int) == Digit(c)
  {
  }

  /** What reading makes of a text: the octets of the digits it starts with. */
  function Taken(s: string): seq<octet> { Unhex(s[..Run(s)]) }

  lemma RunStep(t: string)
    requires t != "" && IsHex(t[0])
    ensures Run(t) == 1 + Run(t[1..])
  {
  }

  lemma TwoMore(t: string)
    requires |t| >= 2 && IsHex(t[0]) && IsHex(t[1])
    ensures Run(t) == 2 + Run(t[2..])
    ensures Taken(t) == [Octet(t[0], t[1])] + Taken(t[2..])
  {
    RunStep(t);
    RunStep(t[1..]);
    assert t[1..][1..] == t[2..];
    UnhexStep(t, Run(t[2..]));
  }

  lemma UnhexStep(t: string, n: nat)
    requires n + 2 <= |t| && AllHex(t[..n+2])
    ensures AllHex(t[2..][..n]) && IsHex(t[0]) && IsHex(t[1])
    ensures Unhex(t[..n+2]) == [Octet(t[0], t[1])] + Unhex(t[2..][..n])
  {
    hide IsHex, Octet;
    var u := t[..n+2];
    assert u[2..] == t[2..][..n] && u[0] == t[0] && u[1] == t[1];
  }

  lemma NoMore(t: string)
    requires t == "" || !IsHex(t[0]) || |t| == 1 || !IsHex(t[1])
    ensures Taken(t) == []
    ensures Run(t) == if t == "" || !IsHex(t[0]) then 0 else 1
  {
  }

  /** One round: a digit and another, or the end of the digits. */
  method ReadOctet(input: Istream) returns (more: bool, x: octet)
    requires input.good
    modifies input
    ensures var t := old(input.rest);
            if more then
              && |t| >= 2 && IsHex(t[0]) && IsHex(t[1]) && x == Octet(t[0], t[1])
              && input.good && input.rest == t[2..]
            else
              && Taken(t) == [] && input.rest == t[Run(t)..] && input.good == (Run(t) < |t|)
  {
    ghost var t := input.rest;
    if t == "" || !IsHex(t[0]) || |t| == 1 || !IsHex(t[1]) {
      NoMore(t);
    }
    hide Run, Taken, IsHex;
    var c := input.Get();
    if !input.good {
      return false, 0;
    }
    if !IsHex(c as char) {
      input.Putback(c as char);
      return false, 0;
    }
    ValueIsDigit(c as char);
    c := Value(c);
    var d := input.Get();
    if !input.good {
      input.Putback(c as char); // of no effect
      return false, 0;
    }
    if !IsHex(d as char) {
      input.Putback(d as char);
      assert t[1..] == [t[1]] + t[2..];
      return false, 0;
    }
    ValueIsDigit(d as char);
    d := Value(d);
    return true, 16 * c + d;
  }

  /** Read pairs of digits until there are no more; all the digits are used up, an odd one too. */
  method Read(input: Istream) returns (b: seq<octet>)
    modifies input
    ensures var s := old(input.rest);
            if old(input.good) then
              b == Taken(s) && input.rest == s[Run(s)..] && input.good == (Run(s) < |s|)
            else
              b == [] && !input.good && input.rest == s
  {
    hide Run, Taken, IsHex;
    b := [];
    if !input.good {
      var eof := input.Get();
      return;
    }
    ghost var s, k := input.rest, 0;
    while true
      invariant input.good && k <= |s| && input.rest == s[k..]
      invariant Run(s) == k + Run(s[k..]) && Taken(s) == b + Taken(s[k..])
      decreases |input.rest|
    {
      ghost var t := input.rest;
      var more, x := ReadOctet(input);
      if !more {
        return;
      }
      TwoMore(t);
      assert t[2..] == s[k+2..];
      b, k := b + [x], k + 2;
    }
  }

  // ---------------------------------------------------------------- round trips

  lemma {:induction false} RunOfHex(s: string, t: string)
    requires AllHex(s) && (t == "" || !IsHex(t[0]))
    ensures Run(s + t) == |s|
  {
    hide IsHex;
    if s == "" {
      assert s + t == t;
    } else {
      assert (s + t)[1..] == s[1..] + t;
      RunOfHex(s[1..], t);
    }
  }

  lemma {:induction false} UnhexConcat(s: string, t: string)
    requires AllHex(s) && AllHex(t) && |s| % 2 == 0
    ensures AllHex(s + t) && Unhex(s + t) == Unhex(s) + Unhex(t)
    decreases |s|
  {
    hide IsHex, Octet;
    if s == "" {
      assert s + t == t;
    } else {
      assert (s + t)[2..] == s[2..] + t;
      UnhexConcat(s[2..], t);
    }
  }

  lemma OnePair(x: octet)
    ensures Unhex(Pair(x)) == [x]
  {
    OctetOfPair(x);
    hide Pair, IsHex, Octet;
    assert Unhex(Pair(x)[2..]) == [];
  }

  lemma {:induction false} UnhexOfHex(b: seq<octet>)
    ensures Unhex(Hex(b)) == b
  {
    if b != [] {
      hide Pair, IsHex, Unhex;
      UnhexOfHex(b[..|b|-1]);
      UnhexConcat(Hex(b[..|b|-1]), Pair(b[|b|-1]));
      OnePair(b[|b|-1]);
    } else {
      assert Unhex("") == [];
    }
  }

  lemma {:induction false} HexCons(x: octet, b: seq<octet>)
    ensures Hex([x] + b) == Pair(x) + Hex(b)
  {
    hide Pair, IsHex;
    if b == [] {
      assert [x] + b == [] + [x];
    } else {
      HexCons(x, b[..|b|-1]);
      assert ([x] + b)[..|b|] == [x] + b[..|b|-1];
    }
  }

  predicate AllZero(b: seq<octet>) { forall x :: x in b ==> x == 0 }

  lemma AllZeroCons(x: octet, b: seq<octet>)
    ensures AllZero([x] + b) <==> x == 0 && AllZero(b)
  {
    assert x in [x] + b;
    assert forall y :: y in b ==> y in [x] + b;
  }

  /** A zero before the digits shifts them out of step; only zeros do not show it. */
  lemma {:induction false} OutOfStep(b: seq<octet>)
    ensures AllHex(['0'] + Hex(b))
    ensures Unhex(['0'] + Hex(b)) == b <==> AllZero(b)
  {
    if b != [] {
      var x, rest := b[0], b[1..];
      OutOfStep(rest);
      Shifted(x, rest);
      AllZeroCons(x, rest);
      hide Hex, Unhex, AllHex, AllZero;
      assert b == [x] + rest;
    }
  }

  lemma Shifted(x: octet, rest: seq<octet>)
    requires AllHex(['0'] + Hex(rest))
    ensures AllHex(['0'] + Hex([x] + rest))
    ensures Unhex(['0'] + Hex([x] + rest)) == [x] + rest <==> x == 0 && Unhex(['0'] + Hex(rest)) == rest
  {
    HexCons(x, rest);
    ZeroBefore(x);
    hide Pair, Hex, IsHex, Octet;
    var s := ['0'] + Hex([x] + rest);
    assert s[0] == '0' && s[1] == Pair(x)[0];
    var y, t := Octet('0', Pair(x)[0]), [Pair(x)[1]] + Hex(rest);
    assert s[2..] == t;
    assert Unhex(s) == [y] + Unhex(t);
    SeqCons(y, Unhex(t), x, rest);
  }

  lemma SeqCons(y: octet, t: seq<octet>, x: octet, rest: seq<octet>)
    ensures [y] + t == [x] + rest <==> y == x && t == rest
  {
    assert ([y] + t)[0] == y && ([y] + t)[1..] == t && ([x] + rest)[1..] == rest;
  }

  lemma ZerosAreHex(n: int)
    ensures AllHex(Repeat('0', n))
  {
    ZeroBefore(0);
    hide IsHex;
  }

  lemma HexConcat(s: string, t: string)
    requires AllHex(s) && AllHex(t)
    ensures AllHex(s + t)
  {
    hide IsHex;
  }

  lemma PrintedIsHex(b: seq<octet>, width: int)
    ensures AllHex(Printed(b, width))
    ensures width <= 0 ==> Printed(b, width) == Hex(b)
    ensures width == 1 ==> Printed(b, width) == ['0'] + Hex(b)
    ensures width > 1 ==> |Printed(b, width)| / 2 > |b|
  {
    ZerosAreHex(width);
    ZerosAreHex(width - 2 * |b|);
    ZerosAreHex(2 * width - 1);
    ZerosAreHex(0);
    HexConcat(Repeat('0', width), Hex(b));
    HexConcat(Repeat('0', width) + Hex(b), Repeat('0', width - 2 * |b|));
    assert b == [] ==> Hex(b) == "";
    hide AllHex, Hex;
  }

  /**
    Reading back what was printed, whatever follows that is not a digit: nothing but the digits is
    used up, and the blob is the same exactly when the stream had no width, or a width of one and
    the octets are all zero.
   */
  lemma ReadOfPrinted(b: seq<octet>, width: int, follows: string)
    requires follows == "" || !IsHex(follows[0])
    ensures var s := Printed(b, width) + follows;
            && s[Run(s)..] == follows
            && (Taken(s) == b <==> width <= 0 || (width == 1 && AllZero(b)))
  {
    var p := Printed(b, width);
    PrintedIsHex(b, width);
    hide Printed, IsHex;
    RunOfHex(p, follows);
    assert (p + follows)[..|p|] == p;
    UnhexOfHex(b);
    OutOfStep(b);
  }

  function Uppercase(s: string): (u: string)
    ensures |u| == |s|
  {
    seq(|s|, i requires 0 <= i < |s| => Upper(s[i]))
  }

  lemma {:induction false} HexOfUnhex(s: string)
    requires AllHex(s) && |s| % 2 == 0
    ensures Hex(Unhex(s)) == Uppercase(s)
    decreases |s|
  {
    if s != "" {
      hide IsHex, Pair, Octet, Upper;
      HexOfUnhex(s[2..]);
      HexCons(Octet(s[0], s[1]), Unhex(s[2..]));
      PairOfOctet(s[0], s[1]);
      assert Uppercase(s) == [Upper(s[0]), Upper(s[1])] + Uppercase(s[2..]);
    }
  }

  lemma {:induction false} OddDigitIsLost(s: string)
    requires AllHex(s)
    ensures Unhex(s) == Unhex(s[..|s| / 2 * 2])
  {
    hide IsHex, Octet;
    if |s| >= 2 {
      OddDigitIsLost(s[2..]);
      assert s[..|s| / 2 * 2][2..] == s[2..][..|s[2..]| / 2 * 2];
    }
  }

  /** Printing what was read gives the run of digits in upper case, less an odd digit at its end. */
  lemma PrintedOfRead(s: string, width: int)
    requires width <= 0
    ensures Printed(Taken(s), width) == Uppercase(s[..Run(s) / 2 * 2])
  {
    var t := s[..Run(s)];
    OddDigitIsLost(t);
    HexOfUnhex(t[..|t| / 2 * 2]);
    assert t[..|t| / 2 * 2] == s[..Run(s) / 2 * 2];
    PrintedIsHex(Taken(s), width);
  }
}
