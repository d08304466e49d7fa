/**
 Word arithmetic under inet::Int128: unsigned and signed 64-bit words as integers, the
 bitwise operators the source applies to them, and the 128-bit value of a word pair.
 */
module Int128Words {
  import opened Binary
  import opened Widths

  const B127: int := 0x8000_0000_0000_0000_0000_0000_0000_0000
  const B128: int := 0x1_0000_0000_0000_0000_0000_0000_0000_0000

  type U64 = x: int | 0 <= x < B64
  type I64 = x: int | -B63 <= x < B63

  /** Conversion of any integer to uint64_t and to int64_t. */
  function ToU64(x: int): U64 {
    x % B64
  }

  function ToI64(x: int): I64 {
    (x + B63) % B64 - B63
  }

  /** The signed integer a word pair stands for. */
  function Val(lo: U64, hi: I64): (v: int)
    ensures -B127 <= v < B127
  {
    hi * B64 + lo
  }

  /** Two's complement reduction to 128 bits. */
  function Wrap(v: int): (w: int)
    ensures -B127 <= w < B127
  {
    (v + B127) % B128 - B127
  }

  lemma WrapUnique(v: int, w: int, k: int)
    requires -B127 <= w < B127 && v == w + k * B128
    ensures Wrap(v) == w
  {}

  lemma WrapDiffers(v: int) returns (k: int)
    ensures v == Wrap(v) + k * B128
  {
    k := (v + B127) / B128;
  }

  /** Reduction respects sums, differences and products. */
  lemma WrapAdd(a: int, b: int)
    ensures Wrap(Wrap(a) + Wrap(b)) == Wrap(a + b) == Wrap(Wrap(a) + b) == Wrap(a + Wrap(b))
  {
    var j := WrapDiffers(a);
    var k := WrapDiffers(b);
    var l := WrapDiffers(a + b);
    WrapUnique(Wrap(a) + Wrap(b), Wrap(a + b), l - j - k);
    WrapUnique(Wrap(a) + b, Wrap(a + b), l - j);
    WrapUnique(a + Wrap(b), Wrap(a + b), l - k);
  }

  lemma WrapMul(a: int, b: int)
    ensures Wrap(Wrap(a) * b) == Wrap(a * b)
  {
    var j := WrapDiffers(a);
    var l := WrapDiffers(a * b);
    assert Wrap(a) * b == a * b - (j * b) * B128;
    WrapUnique(Wrap(a) * b, Wrap(a * b), l - j * b);
  }

  lemma WrapSmall(v: int)
    requires -B127 <= v < B127
    ensures Wrap(v) == v
  {}

  lemma PowConstants()
    ensures Pow2(63) == B63 && Pow2(64) == B64 && Pow2(127) == B127 && Pow2(128) == B128
  {
    assert Pow2(8) == 256 && Pow2(7) == 128;
    PowAdd(8, 8);
    PowAdd(16, 16);
    PowAdd(32, 32);
    PowAdd(64, 64);
    assert Pow2(64) == 2 * Pow2(63);
    assert Pow2(128) == 2 * Pow2(127);
  }

  lemma ToU64Eq(x: int) returns (k: int)
    ensures ToU64(x) == x - k * B64
  {
    k := x / B64;
  }

  lemma ToI64Eq(x: int) returns (k: int)
    ensures ToI64(x) == x - k * B64
  {
    k := (x + B63) / B64;
  }

  lemma ToU64Unique(x: int, u: int, k: int)
    requires x == u + k * B64 && 0 <= u < B64
    ensures ToU64(x) == u
  {}
}
