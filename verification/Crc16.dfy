/** The byte-at-a-time CRC of crc16.c. */
module Crc16 {
  import opened Bytes

  const PRESET: bv16 := 0x1D0F

  /** One byte into the running CRC: the body of the loop in crc16_add. */
  function Step(crc: bv16, b: byte): bv16 {
    var y: byte := ((crc >> 8) as byte) ^ b;
    var x: byte := y ^ (y >> 4);
    (crc << 8) ^ ((x as bv16) << 12) ^ ((x as bv16) << 5) ^ (x as bv16)
  }

  /** The running CRC after the bytes of s. */
  function Add(crc: bv16, s: bytes): bv16 {
    if s == [] then crc else Step(Add(crc, s[..|s|-1]), s[|s|-1])
  }

  /** Feeding two stretches one after the other is feeding their concatenation. */
  lemma {:induction false} AddConcat(crc: bv16, s: bytes, t: bytes)
    ensures Add(crc, s + t) == Add(Add(crc, s), t)
    decreases |t|
  {
    if t == [] {
      assert s + t == s;
    } else {
      AddConcat(crc, s, t[..|t|-1]);
      assert (s + t)[..|s + t|-1] == s + t[..|t|-1];
    }
  }

  /** crc16_add over length bytes of a buffer; a negative length reads nothing. */
  method AddBytes(start: bv16, data: array<byte>, from: nat, count: int) returns (crc: bv16)
    requires from + count <= data.Length
    requires from <= data.Length
    ensures crc == Add(start, data[from..from + Max(count, 0)])
  {
    crc := start;
    var p, length := from, count - 1;
    while length >= 0
      invariant from <= p <= data.Length
      invariant -1 <= length || count < 0
      invariant count >= 0 ==> p == from + count - 1 - length
      invariant count < 0 ==> p == from && length < 0
      invariant crc == Add(start, data[from..p])
    {
      crc := Step(crc, data[p]);
      assert data[from..p+1][..p-from] == data[from..p];
      p := p + 1;
      length := length - 1;
    }
  }
}
