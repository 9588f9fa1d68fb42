/** Fixed-width integers, C strings and little-endian words shared by every
    part of the kernel model. */
module Types {

  /** An unsigned 8-bit value (uint8_t). */
  type byte = x: int | 0 <= x < 0x100

  /** An unsigned 32-bit value (uint32_t). */
  type u32 = x: int | 0 <= x < 0x1_0000_0000

  const TWO_32: int := 0x1_0000_0000

  datatype Option<+T> = None | Some(value: T)

  /** Reinterprets a uint32_t as an int32_t (two's complement), as a C
      function does when it returns a uint32_t through an int32_t. */
  function AsInt32(x: u32): (r: int)
    ensures -0x8000_0000 <= r < 0x8000_0000
    ensures (r - x) % TWO_32 == 0
    ensures x < 0x8000_0000 <==> r == x
  {
    if x < 0x8000_0000 then x else x - TWO_32
  }

  /** Reduces a mathematical integer to uint32_t, as C unsigned arithmetic
      does. */
  function Wrap32(x: int): (r: u32)
    ensures (r - x) % TWO_32 == 0
    ensures 0 <= x < TWO_32 ==> r == x
  {
    x % TWO_32
  }

  /** The word formed from four bytes stored lowest address first, which is
      how an x86 CPU loads a uint32_t from memory. */
  function Le32(b0: byte, b1: byte, b2: byte, b3: byte): u32
  {
    b0 + 0x100 * b1 + 0x1_0000 * b2 + 0x100_0000 * b3
  }

  /** Byte k (0 = lowest address) of the little-endian encoding of w. */
  function LeByte(w: u32, k: nat): byte
    requires k < 4
  {
    if k == 0 then w % 0x100
    else if k == 1 then (w / 0x100) % 0x100
    else if k == 2 then (w / 0x1_0000) % 0x100
    else w / 0x100_0000
  }

  /** Decoding the four bytes of an encoded word gives the word back. */
  lemma LeEncodeDecode(w: u32)
    ensures Le32(LeByte(w, 0), LeByte(w, 1), LeByte(w, 2), LeByte(w, 3)) == w
  {
    var q1 := w / 0x100;
    var q2 := q1 / 0x100;
    var q3 := q2 / 0x100;
    assert w == w % 0x100 + 0x100 * q1;
    assert q1 == q1 % 0x100 + 0x100 * q2;
    assert q2 == q2 % 0x100 + 0x100 * q3;
    assert q2 == w / 0x1_0000;
    assert q3 == w / 0x100_0000;
  }

  /** Encoding a decoded word gives the four bytes back, so Le32 is
      injective: two byte quadruples with the same word are equal. */
  lemma LeDecodeEncode(b0: byte, b1: byte, b2: byte, b3: byte)
    ensures LeByte(Le32(b0, b1, b2, b3), 0) == b0
    ensures LeByte(Le32(b0, b1, b2, b3), 1) == b1
    ensures LeByte(Le32(b0, b1, b2, b3), 2) == b2
    ensures LeByte(Le32(b0, b1, b2, b3), 3) == b3
  {
    var w := Le32(b0, b1, b2, b3);
    assert w / 0x100 == b1 + 0x100 * b2 + 0x1_0000 * b3;
    assert w / 0x1_0000 == b2 + 0x100 * b3;
    assert w / 0x100_0000 == b3;
  }

  /** The character at index k of a NUL-terminated string held in s: bytes
      past the end of s read as the terminator. */
  function CharAt(s: seq<byte>, k: int): byte
  {
    if 0 <= k < |s| then s[k] else 0
  }

  /** Sequence concatenation regrouped. */
  lemma Regroup<T>(a: seq<T>, b: seq<T>, c: seq<T>)
    ensures (a + b) + c == a + (b + c)
  {
  }
}
