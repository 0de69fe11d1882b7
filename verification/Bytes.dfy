/** Bytes on the wire, and the constants of the link layer. */
module Bytes {

  type byte = bv8
  type bytes = seq<byte>

  /** A byte as a number, where the code divides and multiplies it. */
  type octet = n: nat | n < 256

  /** The message introducer, and the idle byte used for padding. */
  const SOH: byte := 0x53
  const MARK: byte := 0xFF

  /** Size of the common header: SOH, address, two length bytes, control. */
  const HEADER: nat := 5

  /** Both frame buffers: payload, reply, header, CRC, sync and two spare bytes. */
  const BUFFER_SIZE: nat := 256 + 5 + 5 + 2 + 1 + 2

  /** The control bit announcing a CRC rather than a byte sum. */
  const CTRL_CRC: byte := 0x04

  /** Result codes; every other result is a size. */
  const TIMEOUT: int := -1
  const OVERFLOW: int := -3
  const BADCHECK: int := -6
  const FLYBY: int := -7

  function Min(a: int, b: int): int { if a <= b then a else b }

  function Max(a: int, b: int): int { if a <= b then b else a }

  /** A length field, least significant byte first. */
  function LengthOf(lo: byte, hi: byte): (n: nat)
    ensures n < 0x1_0000
  {
    (lo as nat) + 256 * (hi as nat)
  }

  function LowByte(n: nat): byte { (n % 256) as byte }

  function HighByte(n: nat): byte { (n / 256 % 256) as byte }

  /** Counting up reaches every byte. */
  lemma ByteOf(n: nat) returns (b: byte)
    requires n < 256
    ensures b as nat == n
  {
    b := 0;
    for k := 0 to n
      invariant b as nat == k
    {
      NextByte(b);
      b := b + 1;
    }
  }

  lemma NextByte(b: byte)
    requires b as nat < 255
    ensures (b + 1) as nat == b as nat + 1
  {
  }

  lemma ByteBack(b: byte)
    ensures b as nat as byte == b
  {
  }

  lemma ByteRoundTrip(n: nat)
    requires n < 256
    ensures n as byte as nat == n
  {
    var b := ByteOf(n);
    ByteBack(b);
  }

  lemma BytesOfLength(n: nat)
    ensures LowByte(n) as nat == n % 256 && HighByte(n) as nat == n / 256 % 256
  {
    ByteRoundTrip(n % 256);
    ByteRoundTrip(n / 256 % 256);
  }

  lemma Digits(n: nat)
    requires n < 0x1_0000
    ensures n % 256 + 256 * (n / 256 % 256) == n
  {
  }

  lemma LengthRoundTrip(n: nat)
    requires n < 0x1_0000
    ensures LengthOf(LowByte(n), HighByte(n)) == n
  {
    BytesOfLength(n);
    hide LowByte, HighByte;
    Digits(n);
  }
}
