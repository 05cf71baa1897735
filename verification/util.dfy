/** The small numeric helpers of util.h: `limit`, `sgn` and the string form of
    `makeSeed`. */
module Util {
  import opened Integers

  /** `limit(v, minV, maxV)`: `maxV` above the range, `minV` below it, `v` inside. The
      upper bound is tested first, so an empty range (`minV > maxV`) gives `maxV` for
      values above it. */
  function Limit(v: int, minV: int, maxV: int): (r: int)
    ensures v > maxV ==> r == maxV
    ensures v <= maxV && v < minV ==> r == minV
    ensures minV <= v <= maxV ==> r == v
    ensures minV <= maxV ==> minV <= r <= maxV
  {
    if v > maxV then maxV
    else if minV > v then minV
    else v
  }

  /** Clamping twice is clamping once, and clamping only moves a value towards the
      range. */
  lemma LimitIdempotent(v: int, minV: int, maxV: int)
    requires minV <= maxV
    ensures Limit(Limit(v, minV, maxV), minV, maxV) == Limit(v, minV, maxV)
    ensures v <= maxV ==> v <= Limit(v, minV, maxV)
    ensures v >= minV ==> Limit(v, minV, maxV) <= v
  {
  }

  /** `sgn(v)`: -1, 0 or 1 according to the sign of `v`. */
  function Sgn(v: int): (r: int)
    ensures -1 <= r <= 1
    ensures r < 0 <==> v < 0
    ensures r == 0 <==> v == 0
    ensures r > 0 <==> v > 0
  {
    if v < 0 then -1
    else if v > 0 then 1
    else 0
  }

  /** The sign times the value is the magnitude. */
  lemma SgnTimesValue(v: int)
    ensures Sgn(v) * v == (if v < 0 then -v else v)
    ensures Sgn(-v) == -Sgn(v)
  {
  }

  const Modulus32: nat := 0x1_0000_0000

  /** The seed of a non-empty string: `retval = retval * 9 + ch` over its characters,
      in `uint32_t` arithmetic. */
  function SeedHash(s: seq<WChar>): u32
  {
    if |s| == 0 then 0
    else (SeedHash(s[..|s| - 1]) * 9 + s[|s| - 1]) % Modulus32
  }

  /** The same polynomial over unbounded integers. */
  function Horner(s: seq<WChar>): nat
  {
    if |s| == 0 then 0
    else Horner(s[..|s| - 1]) * 9 + s[|s| - 1]
  }

  /** Reducing after every step gives the polynomial reduced once. */
  lemma {:induction false} SeedHashIsHorner(s: seq<WChar>)
    ensures SeedHash(s) == Horner(s) % Modulus32
  {
    if |s| > 0 {
      var init := s[..|s| - 1];
      SeedHashIsHorner(init);
      var h := Horner(init);
      var q := h / Modulus32;
      assert h == q * Modulus32 + SeedHash(init);
      assert Horner(s) == (q * 9) * Modulus32 + (SeedHash(init) * 9 + s[|s| - 1]);
      ModMultipleAdded(q * 9, SeedHash(init) * 9 + s[|s| - 1]);
    }
  }

  lemma ModMultipleAdded(k: int, x: int)
    ensures (k * Modulus32 + x) % Modulus32 == x % Modulus32
  {
  }

  /** `makeSeed(wstring)`: the seed of a non-empty string is its hash; the empty string
      falls back to the clock-based `makeSeed()`, whose value is the parameter
      `clockSeed` here. */
  method MakeSeed(str: seq<WChar>, clockSeed: u32) returns (r: u32)
    ensures str == [] ==> r == clockSeed
    ensures str != [] ==> r == Horner(str) % Modulus32
  {
    if str == [] {
      return clockSeed;
    }
    r := 0;
    for i := 0 to |str|
      invariant r == SeedHash(str[..i])
    {
      assert str[..i + 1][..i] == str[..i];
      r := (r * 9 + str[i]) % Modulus32;
    }
    assert str[..|str|] == str;
    SeedHashIsHorner(str);
  }
}
