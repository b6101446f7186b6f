/** Octets and the 4-byte unsigned length field that the stream framing
    writes straight from memory. The host is taken to be little-endian on
    both ends of the connection. */
module Bytes {

  type byte = x: int | 0 <= x < 256

  /** 2^32: one more than the largest `uint32_t`. */
  const TWO32: int := 0x1_0000_0000

  /** The value a `uint32_t` holds after `static_cast<uint32_t>(n)`. */
  function ToUint32(n: nat): (r: nat)
    ensures r < TWO32
    ensures n < TWO32 ==> r == n
  {
    n % TWO32
  }

  /** The four bytes of a `uint32_t` as they lie in little-endian memory. */
  function LE32(n: nat): (r: seq<byte>)
    requires n < TWO32
    ensures |r| == 4
    ensures r[0] == n % 256
    ensures DecodeLE32(r) == n
  {
    [n % 256, (n / 0x100) % 256, (n / 0x1_0000) % 256, n / 0x100_0000]
  }

  /** The `uint32_t` that four little-endian bytes spell. */
  function DecodeLE32(b: seq<byte>): (n: nat)
    requires |b| == 4
    ensures n < TWO32
    ensures n % 256 == b[0]
  {
    b[0] as int + 0x100 * b[1] as int + 0x1_0000 * b[2] as int + 0x100_0000 * b[3] as int
  }

  /** Reading back the four bytes of a length field written by `LE32`
      gives the bytes themselves: the encoding is onto. */
  lemma EncodeDecodedLE32(b: seq<byte>)
    requires |b| == 4
    ensures LE32(DecodeLE32(b)) == b
  {
    var n := DecodeLE32(b);
    var b0, b1, b2, b3 := b[0] as int, b[1] as int, b[2] as int, b[3] as int;
    assert n == (b0 + 0x100 * b1) + 0x1_0000 * (b2 + 0x100 * b3);
    assert n / 0x1_0000 == b2 + 0x100 * b3;
    assert n / 0x100 == b1 + 0x100 * (b2 + 0x100 * b3);
    assert n / 0x100_0000 == b3;
  }

  /** A byte string with no zero byte: what a JSON text is once every
      control character has been escaped (section 7 of RFC 8259). */
  predicate NoNul(s: seq<byte>)
  {
    forall i :: 0 <= i < |s| ==> s[i] != 0
  }
}
