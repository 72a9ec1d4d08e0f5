/** Bytes and the big-endian 32-bit length field used by the framing protocol. */
module Bytes {

  newtype byte = x: int | 0 <= x < 0x100

  /** 2^32: a `u32` holds the values below this bound. */
  const U32_LIMIT: nat := 0x1_0000_0000

  /** Reads a big-endian `u32` (most significant byte first), as `read_be_u32` does. */
  function FromBeU32(b: seq<byte>): (n: nat)
    requires |b| == 4
    ensures n < U32_LIMIT
  {
    ((b[0] as nat * 0x100 + b[1] as nat) * 0x100 + b[2] as nat) * 0x100 + b[3] as nat
  }

  /** The four bytes `write_be_u32(n as u32)` emits: the cast keeps the low 32 bits of `n`,
      then the most significant byte goes first. */
  function BeU32(n: nat): (b: seq<byte>)
    ensures |b| == 4
    ensures FromBeU32(b) == n % 0x1_0000_0000
  {
    var v := n % 0x1_0000_0000;
    var q1 := v / 0x100;
    var q2 := q1 / 0x100;
    var q3 := q2 / 0x100;
    [q3 as byte, (q2 % 0x100) as byte, (q1 % 0x100) as byte, (v % 0x100) as byte]
  }

  /** Splitting off the low byte of `q * 0x100 + r` gives back `q` and `r`. */
  lemma LowByte(q: nat, r: nat)
    requires r < 0x100
    ensures (q * 0x100 + r) / 0x100 == q && (q * 0x100 + r) % 0x100 == r
  {
  }

  /** Every four-byte field is the encoding of the number it decodes to. */
  lemma BeU32OfFromBeU32(b: seq<byte>)
    requires |b| == 4
    ensures BeU32(FromBeU32(b)) == b
  {
    var q2 := b[0] as nat * 0x100 + b[1] as nat;
    var q1 := q2 * 0x100 + b[2] as nat;
    var n := q1 * 0x100 + b[3] as nat;
    assert FromBeU32(b) == n < 0x1_0000_0000;
    LowByte(q1, b[3] as nat);
    LowByte(q2, b[2] as nat);
    LowByte(b[0] as nat, b[1] as nat);
    assert BeU32(n) == [b[0], b[1], b[2], b[3]];
  }

  /** Two successive appends to `s` append the concatenation of what they append. */
  lemma AppendTwo(s: seq<byte>, a: seq<byte>, b: seq<byte>)
    ensures s + a + b == s + (a + b)
  {
  }

  /** Three successive appends to `s` append the concatenation of what they append. */
  lemma AppendThree(s: seq<byte>, a: seq<byte>, b: seq<byte>, c: seq<byte>)
    ensures s + a + b + c == s + (a + b + c)
  {
  }
}
