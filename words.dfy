/** Fixed-width machine values of the C library: bytes, `uint32_t` and `int`,
    with the conversions C applies between them, and the single byte order
    the model fixes for the 4-byte header words (least significant byte first). */
module Words {

  const WordLimit: int := 0x1_0000_0000
  /** Bytes per transmitted header word (`sizeof(uint32_t)`). */
  const WordSize: nat := 4

  newtype Byte = x: int | 0 <= x < 0x100
  /** `uint32_t` */
  type U32 = x: int | 0 <= x < 0x1_0000_0000
  /** a 32-bit two's-complement `int` */
  type I32 = x: int | -0x8000_0000 <= x < 0x8000_0000

  const MaxU32: U32 := 0xFFFF_FFFF
  const MaxI32: I32 := 0x7FFF_FFFF

  /** C's conversion of an integer value to `uint32_t`: reduction modulo 2^32. */
  function ToU32(i: int): (u: U32)
    ensures 0 <= i < WordLimit ==> u == i
  {
    i % WordLimit
  }

  /** Conversion of a `uint32_t` back to `int`, as on a two's-complement target. */
  function AsSigned(u: U32): (i: I32)
    ensures ToU32(i) == u
    ensures u <= MaxI32 <==> i >= 0
  {
    if u <= MaxI32 then u else u - WordLimit
  }

  /** Storing an `int` in a `uint32_t` field and reading it back as `int` is lossless. */
  lemma SignedRoundTrip(i: I32)
    ensures AsSigned(ToU32(i)) == i
  {
    if i < 0 {
      assert ToU32(i) == i + WordLimit;
    }
  }

  /** `++x` on a `uint32_t`: wraps from the largest value to 0. */
  function Inc32(u: U32): U32
  {
    if u == MaxU32 then 0 else u + 1
  }

  /** `a - b` in `uint32_t` arithmetic: wraps below 0. */
  function Sub32(a: U32, b: U32): U32
  {
    if b <= a then a - b else a - b + WordLimit
  }

  /** Both agree with C's reduction of the exact result modulo 2^32. */
  lemma WrapIsModular(a: U32, b: U32)
    ensures Inc32(a) == ToU32(a + 1)
    ensures Sub32(a, b) == ToU32(a - b)
  {
  }

  function Min(a: int, b: int): int
  {
    if a <= b then a else b
  }

  /** The 4 bytes of a header word, least significant first. */
  function EncodeWord(x: U32): (s: seq<Byte>)
    ensures |s| == WordSize
  {
    [(x % 0x100) as Byte, ((x / 0x100) % 0x100) as Byte, ((x / 0x1_0000) % 0x100) as Byte, (x / 0x100_0000) as Byte]
  }

  /** The header word held in 4 bytes, least significant first. */
  function DecodeWord(s: seq<Byte>): U32
    requires |s| == WordSize
  {
    s[0] as int + 0x100 * s[1] as int + 0x1_0000 * s[2] as int + 0x100_0000 * s[3] as int
  }

  lemma DecodeEncodeWord(x: U32)
    ensures DecodeWord(EncodeWord(x)) == x
  {
    var q1 := x / 0x100;
    var q2 := q1 / 0x100;
    var q3 := q2 / 0x100;
    var r0, r1, r2 := x % 0x100, q1 % 0x100, q2 % 0x100;
    assert x == r0 + 0x100 * q1;
    assert q1 == r1 + 0x100 * q2;
    assert q2 == r2 + 0x100 * q3;
    assert x == (r0 + 0x100 * r1) + 0x1_0000 * q2;
    assert x / 0x1_0000 == q2;
    assert x == (r0 + 0x100 * r1 + 0x1_0000 * r2) + 0x100_0000 * q3;
    assert x / 0x100_0000 == q3;
    assert EncodeWord(x) == [r0 as Byte, r1 as Byte, r2 as Byte, q3 as Byte];
  }

  lemma EncodeDecodeWord(s: seq<Byte>)
    requires |s| == WordSize
    ensures EncodeWord(DecodeWord(s)) == s
  {
    var b0, b1, b2, b3 := s[0] as int, s[1] as int, s[2] as int, s[3] as int;
    var x: int := DecodeWord(s);
    var q1 := b1 + 0x100 * b2 + 0x1_0000 * b3;
    var q2 := b2 + 0x100 * b3;
    assert x == b0 + 0x100 * q1;
    assert x % 0x100 == b0 && x / 0x100 == q1;
    assert q1 % 0x100 == b1 && q1 / 0x100 == q2;
    assert q2 % 0x100 == b2 && q2 / 0x100 == b3;
    assert x == (b0 + 0x100 * b1) + 0x1_0000 * q2;
    assert x / 0x1_0000 == q2;
    assert x == (b0 + 0x100 * b1 + 0x1_0000 * b2) + 0x100_0000 * b3;
    assert x / 0x100_0000 == b3;
  }

  /** Two 32-bit words are equal exactly when their encodings are. */
  lemma EncodeWordInjective(x: U32, y: U32)
    ensures EncodeWord(x) == EncodeWord(y) <==> x == y
  {
    if EncodeWord(x) == EncodeWord(y) {
      DecodeEncodeWord(x);
      DecodeEncodeWord(y);
    }
  }
}
