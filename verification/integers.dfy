/** Fixed-width C++ integer types over Dafny's unbounded `int`, and the
    conversions between them that the modelled code relies on. */
module Integers {

  type u8 = x: int | 0 <= x < 0x100
  type u16 = x: int | 0 <= x < 0x1_0000
  type u32 = x: int | 0 <= x < 0x1_0000_0000
  type u64 = x: int | 0 <= x < 0x1_0000_0000_0000_0000
  type i8 = x: int | -0x80 <= x < 0x80
  type i16 = x: int | -0x8000 <= x < 0x8000
  type i32 = x: int | -0x8000_0000 <= x < 0x8000_0000
  type i64 = x: int | -0x8000_0000_0000_0000 <= x < 0x8000_0000_0000_0000

  /** A `wstring` character (`wchar_t`), taken as the `uint32_t` value the code
      converts it to. */
  type WChar = u32

  /** Two's-complement reinterpretation of an unsigned value `x < modulus` as a signed
      value of the same width (the C++ conversion from `uintN_t` to `intN_t`). */
  function ToSigned(x: int, modulus: nat): (v: int)
    requires modulus >= 2 && modulus % 2 == 0
    requires 0 <= x < modulus
    ensures -(modulus / 2) <= v < modulus / 2
    ensures v % modulus == x % modulus
  {
    if x < modulus / 2 then x else (AddModulus(x - modulus, modulus); x - modulus)
  }

  /** Conversion of a signed value to the unsigned type of the same width. */
  function ToUnsigned(v: int, modulus: nat): (x: int)
    requires modulus >= 2 && modulus % 2 == 0
    requires -(modulus / 2) <= v < modulus / 2
    ensures 0 <= x < modulus
    ensures x % modulus == v % modulus
  {
    if v < 0 then (AddModulus(v, modulus); v + modulus) else v
  }

  /** Adding the modulus leaves the remainder unchanged. */
  lemma AddModulus(v: int, modulus: nat)
    requires modulus > 0
    ensures (v + modulus) % modulus == v % modulus
  {
    var q, r := v / modulus, v % modulus;
    assert v + modulus == (q + 1) * modulus + r;
    DivUnique(v + modulus, q + 1, r, modulus);
  }

  /** The quotient and remainder of `a` by `m` are the only `q`, `r` with
      `a == q * m + r` and `0 <= r < m`. */
  lemma DivUnique(a: int, q: int, r: int, m: nat)
    requires m > 0 && a == q * m + r && 0 <= r < m
    ensures a / m == q && a % m == r
  {
    var q', r' := a / m, a % m;
    assert (q - q') * m == r' - r;
    MultipleBound(q - q', m);
  }

  /** A nonzero multiple of `m` is at least `m` away from zero. */
  lemma MultipleBound(k: int, m: nat)
    requires m > 0
    ensures k >= 1 ==> k * m >= m
    ensures k <= -1 ==> k * m + m <= 0
  {
    if k >= 1 {
      assert k * m == (k - 1) * m + m;
    } else if k <= -1 {
      assert k * m == -((-k - 1) * m + m);
    }
  }

  /** The two conversions are inverse to each other. */
  lemma SignedRoundTrip(v: int, modulus: nat)
    requires modulus >= 2 && modulus % 2 == 0
    requires -(modulus / 2) <= v < modulus / 2
    ensures ToSigned(ToUnsigned(v, modulus), modulus) == v
  {
  }

  lemma UnsignedRoundTrip(x: int, modulus: nat)
    requires modulus >= 2 && modulus % 2 == 0
    requires 0 <= x < modulus
    ensures ToUnsigned(ToSigned(x, modulus), modulus) == x
  {
  }

  /** Conversion of any integer to `int16_t` by keeping the low-order 16 bits (the
      C++ narrowing conversion on a two's-complement target). */
  function NarrowI16(x: int): (v: i16)
    ensures (v - x) % 0x1_0000 == 0
    ensures -0x8000 <= x < 0x8000 ==> v == x
  {
    var low := x % 0x1_0000;
    if low < 0x8000 then low else low - 0x1_0000
  }

  /** An `int16_t` value converted to `unsigned` and narrowed back to `int16_t` is
      unchanged. */
  lemma NarrowWrapped(x: int)
    requires -0x8000 <= x < 0x8000
    ensures NarrowI16(x % 0x1_0000_0000) == x
  {
    if x < 0 {
      assert x % 0x1_0000_0000 == x + 0x1_0000_0000;
      assert (x + 0x1_0000_0000) % 0x1_0000 == x + 0x1_0000;
    }
  }

  /** C++ signed integer division, which truncates toward zero. */
  function TDiv(a: int, b: int): (q: int)
    requires b != 0
    ensures b > 0 && a >= 0 ==> q == a / b
    ensures b > 0 ==> (if a >= 0 then q * b <= a else q * b >= a)
    ensures b > 0 ==> (if a >= 0 then a - q * b < b else q * b - a < b)
  {
    if (a >= 0) == (b > 0) then
      (if a >= 0 then a / b else (-a) / (-b))
    else
      -((if a >= 0 then a else -a) / (if b > 0 then b else -b))
  }
}
