/** Fixed-width integers and the 4-byte big-endian length field used on the wire. */
module Bytes {

  type byte = b: int | 0 <= b < 0x100
  type uint16 = n: int | 0 <= n < 0x1_0000
  type uint32 = n: int | 0 <= n < 0x1_0000_0000

  const TWO_32: int := 0x1_0000_0000

  /** Unsigned 32-bit arithmetic: a C++ `uint32_t` result of `n`. */
  function Wrap32(n: int): (r: uint32)
    ensures 0 <= n < TWO_32 ==> r == n
    ensures (n - r) % TWO_32 == 0
  {
    n % TWO_32
  }

  /** `a + b` on `uint32_t` operands. */
  function Add32(a: uint32, b: uint32): uint32
  {
    if a + b < TWO_32 then a + b else a + b - TWO_32
  }

  lemma Add32Wraps(a: uint32, b: uint32)
    ensures Add32(a, b) == Wrap32(a + b)
  {
  }

  /** The four bytes of `n`, most significant first (`htonl` followed by a raw copy). */
  function BE32(n: uint32): (r: seq<byte>)
    ensures |r| == 4
  {
    [n / 0x100_0000, (n / 0x1_0000) % 0x100, (n / 0x100) % 0x100, n % 0x100]
  }

  /** The big-endian value of the first four bytes (`peekInt32` / `readInt32` of the buffer). */
  function DecodeBE32(b: seq<byte>): (n: uint32)
    requires |b| >= 4
  {
    b[0] as int * 0x100_0000 + b[1] as int * 0x1_0000 + b[2] as int * 0x100 + b[3]
  }

  lemma DecodeEncode(n: uint32)
    ensures DecodeBE32(BE32(n)) == n
  {
    var b := BE32(n);
    var q0, q1, q2 := n / 0x100, n / 0x1_0000, n / 0x100_0000;
    assert n == q0 * 0x100 + n % 0x100;
    assert q0 == q1 * 0x100 + q0 % 0x100;
    assert q1 == q2 * 0x100 + q1 % 0x100;
    assert q0 % 0x100 == b[2] && q1 % 0x100 == b[1] && q2 == b[0];
  }

  lemma EncodeDecode(b: seq<byte>)
    requires |b| == 4
    ensures BE32(DecodeBE32(b)) == b
  {
    var n := DecodeBE32(b);
    assert n / 0x100 == b[0] as int * 0x1_0000 + b[1] as int * 0x100 + b[2];
    assert n / 0x1_0000 == b[0] as int * 0x100 + b[1];
    assert n / 0x100_0000 == b[0];
  }

  /** Reading a length field only looks at the first four bytes. */
  lemma DecodePrefix(b: seq<byte>, rest: seq<byte>)
    requires |b| >= 4
    ensures DecodeBE32(b + rest) == DecodeBE32(b)
  {
    assert (b + rest)[..4] == b[..4];
  }
}
