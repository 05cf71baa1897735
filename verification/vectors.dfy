/** `VectorI` of vector.h: a three-component integer vector with component-wise
    arithmetic, dot and cross products. Components are unbounded integers. */
module Vectors {

  datatype VectorI = VectorI(x: int, y: int, z: int) {

    /** Unary `-`. */
    function Neg(): (r: VectorI)
      ensures Add(r) == Splat(0) && r.Add(this) == Splat(0)
    {
      VectorI(-x, -y, -z)
    }

    /** Binary `+`: the zero vector is neutral on either side, and the sum is zero
        exactly for opposite vectors. */
    function Add(r: VectorI): (s: VectorI)
      ensures r == VectorI(0, 0, 0) ==> s == this
      ensures this == VectorI(0, 0, 0) ==> s == r
      ensures s == VectorI(0, 0, 0) <==> r == VectorI(-x, -y, -z)
    {
      VectorI(x + r.x, y + r.y, z + r.z)
    }

    /** Binary `-`. */
    function Sub(r: VectorI): (d: VectorI)
      ensures d.Add(r) == this
    {
      VectorI(x - r.x, y - r.y, z - r.z)
    }

    /** `*` by a vector: the component-wise product. */
    function Mul(r: VectorI): VectorI
    {
      VectorI(x * r.x, y * r.y, z * r.z)
    }

    /** `*` by an `int`, on either side. */
    function Scale(r: int): VectorI
    {
      VectorI(x * r, y * r, z * r)
    }

    /** `operator ==`: all three components equal. */
    predicate Equals(r: VectorI)
    {
      x == r.x && y == r.y && z == r.z
    }

    /** `operator !=`: some component differs. */
    predicate NotEquals(r: VectorI)
    {
      x != r.x || y != r.y || z != r.z
    }

    /** `+=`, `-=` and `*=`: the fields updated in place, one after another. */
    function AddAssign(r: VectorI): VectorI
    {
      this.(x := x + r.x).(y := y + r.y).(z := z + r.z)
    }

    function SubAssign(r: VectorI): VectorI
    {
      this.(x := x - r.x).(y := y - r.y).(z := z - r.z)
    }

    function MulAssign(r: VectorI): VectorI
    {
      this.(x := x * r.x).(y := y * r.y).(z := z * r.z)
    }

    function ScaleAssign(r: int): VectorI
    {
      this.(x := x * r).(y := y * r).(z := z * r)
    }
  }

  /** `VectorI(v)`: every component `v`. */
  function Splat(v: int): (r: VectorI)
    ensures v == 0 ==> forall a: VectorI :: a.Add(r) == a
    ensures v == 1 ==> forall a: VectorI :: a.Mul(r) == a && a.Scale(v) == a
  {
    VectorI(v, v, v)
  }

  /** `dot(a, b)`, which is never negative for `a == b`. */
  function Dot(a: VectorI, b: VectorI): (r: int)
    ensures a == b ==> r >= 0
  {
    SquareNonNegative(a.x);
    SquareNonNegative(a.y);
    SquareNonNegative(a.z);
    a.x * b.x + a.y * b.y + a.z * b.z
  }

  function AbsSquared(v: VectorI): (r: int)
    ensures r >= 0
  {
    Dot(v, v)
  }

  lemma SquareNonNegative(n: int)
    ensures n * n >= 0
  {
    if n < 0 {
      assert n * n == (-n) * (-n);
    }
  }

  /** `cross(a, b)`, which vanishes when `a == b`. */
  function Cross(a: VectorI, b: VectorI): (r: VectorI)
    ensures a == b ==> r == Splat(0)
  {
    VectorI(a.y * b.z - a.z * b.y, a.z * b.x - a.x * b.z, a.x * b.y - a.y * b.x)
  }

  /** `+` and `-` undo each other, `-` is an involution, and `*` by 1 is the identity. */
  lemma ArithmeticLaws(a: VectorI, b: VectorI)
    ensures a.Add(b).Sub(b) == a && a.Sub(b).Add(b) == a
    ensures a.Neg().Neg() == a
    ensures a.Add(b) == b.Add(a)
    ensures a.Scale(1) == a && a.Mul(Splat(1)) == a
    ensures a.Add(b.Neg()) == a.Sub(b)
  {
  }

  /** `==` is component equality, which is value equality, and `!=` its negation. */
  lemma EqualityLaws(a: VectorI, b: VectorI)
    ensures a.Equals(b) <==> a == b
    ensures a.NotEquals(b) <==> !a.Equals(b)
  {
  }

  /** The compound assignments give the values of the binary operators. */
  lemma CompoundAssignments(a: VectorI, b: VectorI, k: int)
    ensures a.AddAssign(b) == a.Add(b) && a.SubAssign(b) == a.Sub(b)
    ensures a.MulAssign(b) == a.Mul(b) && a.ScaleAssign(k) == a.Scale(k)
  {
  }

  /** `absSquared(v)` is `dot(v, v)` and is zero only for the zero vector. */
  lemma AbsSquaredZero(v: VectorI)
    ensures AbsSquared(v) == Dot(v, v)
    ensures AbsSquared(v) == 0 <==> v == Splat(0)
  {
    SquareNonNegative(v.x);
    SquareNonNegative(v.y);
    SquareNonNegative(v.z);
    if v.x != 0 {
      SquarePositive(v.x);
    } else if v.y != 0 {
      SquarePositive(v.y);
    } else if v.z != 0 {
      SquarePositive(v.z);
    }
  }

  lemma SquarePositive(n: int)
    requires n != 0
    ensures n * n > 0
  {
    if n < 0 {
      assert n * n == (-n) * (-n);
    }
  }

  /** The cross product is anti-commutative and orthogonal to its first factor. */
  lemma {:induction false} CrossLaws(a: VectorI, b: VectorI)
    ensures Cross(a, b) == Cross(b, a).Neg()
    ensures Dot(a, Cross(a, b)) == 0
    ensures Dot(b, Cross(a, b)) == 0
  {
    var c := Cross(a, b);
    calc {
      Dot(a, c);
      a.x * (a.y * b.z - a.z * b.y) + a.y * (a.z * b.x - a.x * b.z) + a.z * (a.x * b.y - a.y * b.x);
      { Distribute(a.x, a.y * b.z, a.z * b.y);
        Distribute(a.y, a.z * b.x, a.x * b.z);
        Distribute(a.z, a.x * b.y, a.y * b.x); }
      (a.x * (a.y * b.z) - a.x * (a.z * b.y)) + (a.y * (a.z * b.x) - a.y * (a.x * b.z))
        + (a.z * (a.x * b.y) - a.z * (a.y * b.x));
      { Rearrange(a.x, a.y, b.z); Rearrange(a.x, a.z, b.y); Rearrange(a.y, a.z, b.x); }
      0;
    }
    calc {
      Dot(b, c);
      b.x * (a.y * b.z - a.z * b.y) + b.y * (a.z * b.x - a.x * b.z) + b.z * (a.x * b.y - a.y * b.x);
      { Distribute(b.x, a.y * b.z, a.z * b.y);
        Distribute(b.y, a.z * b.x, a.x * b.z);
        Distribute(b.z, a.x * b.y, a.y * b.x); }
      (b.x * (a.y * b.z) - b.x * (a.z * b.y)) + (b.y * (a.z * b.x) - b.y * (a.x * b.z))
        + (b.z * (a.x * b.y) - b.z * (a.y * b.x));
      { Rearrange(b.x, a.y, b.z); Rearrange(b.y, a.z, b.x); Rearrange(b.z, a.x, b.y);
        Rearrange(b.x, a.z, b.y); Rearrange(b.y, a.x, b.z); Rearrange(b.z, a.y, b.x); }
      0;
    }
  }

  lemma Distribute(p: int, q: int, r: int)
    ensures p * (q - r) == p * q - p * r
  {
  }

  /** Every ordering of a product of three factors is the same value. */
  lemma Rearrange(p: int, q: int, r: int)
    ensures p * (q * r) == q * (p * r) == r * (p * q) == p * (r * q) == q * (r * p) == r * (q * p)
  {
  }
}
