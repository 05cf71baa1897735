/** The floating-point value types carried by meshes and physics objects: `VectorF` and
    `PositionF` (vector.h, position.h), `Color` (color.h), `TextureCoord` (mesh.h) and
    the affine `Matrix` (matrix.h). `float` and `double` are modelled as `real`, so
    rounding is not modelled. */
module Geometry {
  import opened Integers
  import opened Dimensions

  datatype VectorF = VectorF(x: real, y: real, z: real) {

    /** `a + b`: the zero vector is neutral on either side. */
    function Add(r: VectorF): (s: VectorF)
      ensures r == VectorF(0.0, 0.0, 0.0) ==> s == this
      ensures this == VectorF(0.0, 0.0, 0.0) ==> s == r
    {
      VectorF(x + r.x, y + r.y, z + r.z)
    }

    /** `k * v`: every component multiplied by `k`. */
    function Scale(k: real): VectorF
    {
      VectorF(x * k, y * k, z * k)
    }
  }

  /** `PositionF`: a `VectorF` together with a dimension. */
  datatype PositionF = PositionF(v: VectorF, d: Dimension) {

    /** `p + v`: the vector sum, in `p`'s dimension. */
    function AddVector(w: VectorF): (r: PositionF)
      ensures r.d == d && r.v == v.Add(w)
    {
      PositionF(v.Add(w), d)
    }
  }

  /** `Color`: red, green, blue and opacity. */
  datatype Color = Color(r: real, g: real, b: real, a: real)

  /** `Color()`: transparent black. */
  const Black := Color(0.0, 0.0, 0.0, 0.0)

  /** `Color(1, 1, 1, 1)`: opaque white, the neutral colour factor. */
  const White := Color(1.0, 1.0, 1.0, 1.0)

  /** `scale(l, r)`: the component-wise product. */
  function ScaleColor(l: Color, r: Color): Color
  {
    Color(l.r * r.r, l.g * r.g, l.b * r.b, l.a * r.a)
  }

  /** `interpolate(t, a, b)` of util.h on one component. */
  function Interpolate(t: real, a: real, b: real): (r: real)
    ensures t == 0.0 ==> r == a
    ensures t == 1.0 ==> r == b
    ensures a == b ==> r == a
  {
    a + t * (b - a)
  }

  /** `interpolate<Color>`: component by component. */
  function InterpolateColor(t: real, a: Color, b: Color): (r: Color)
    ensures t == 0.0 ==> r == a
    ensures t == 1.0 ==> r == b
    ensures a == b ==> r == a
  {
    Color(Interpolate(t, a.r, b.r), Interpolate(t, a.g, b.g), Interpolate(t, a.b, b.b), Interpolate(t, a.a, b.a))
  }

  /** `limit(v, 0, 255)` then `ifloor`: a component scaled to 256 steps, as a byte. */
  function ComponentToByte(v: real): (b: u8)
    ensures v <= 0.0 ==> b == 0
    ensures v * 256.0 >= 255.0 ==> b == 255
    ensures 0.0 <= v * 256.0 < 255.0 ==> b as real <= v * 256.0 < b as real + 1.0
  {
    var s := v * 256.0;
    var limited := if s > 255.0 then 255.0 else if s < 0.0 then 0.0 else s;
    limited.Floor
  }

  /** The setters `ri(v)` … `ai(v)`: a byte mapped onto [0, 1]. */
  function ByteToComponent(b: u8): (v: real)
    ensures 0.0 <= v <= 1.0
    ensures b == 0 <==> v == 0.0
  {
    b as real * (1.0 / 255.0)
  }

  /** `ri()`, `gi()`, `bi()`, `ai()`: the four bytes an image stores for a colour. */
  function ColorToBytes(c: Color): (bytes: seq<u8>)
    ensures |bytes| == 4
  {
    [ComponentToByte(c.r), ComponentToByte(c.g), ComponentToByte(c.b), ComponentToByte(c.a)]
  }

  /** The colour read back from four stored bytes. */
  function BytesToColor(bytes: seq<u8>): (c: Color)
    requires |bytes| == 4
    ensures bytes == [0, 0, 0, 0] <==> c == Black
  {
    Color(ByteToComponent(bytes[0]), ByteToComponent(bytes[1]), ByteToComponent(bytes[2]), ByteToComponent(bytes[3]))
  }

  /** Storing the colour read from four bytes stores those bytes again. */
  lemma {:induction false} BytesRoundTrip(bytes: seq<u8>)
    requires |bytes| == 4
    ensures ColorToBytes(BytesToColor(bytes)) == bytes
  {
    forall k | 0 <= k < 4
      ensures ComponentToByte(ByteToComponent(bytes[k])) == bytes[k]
    {
      ComponentRoundTrip(bytes[k]);
    }
  }

  lemma ComponentRoundTrip(b: u8)
    ensures ComponentToByte(ByteToComponent(b)) == b
  {
    var v := ByteToComponent(b);
    assert v * 256.0 == b as real * 256.0 / 255.0;
    if b == 255 {
      assert v * 256.0 >= 255.0;
    } else {
      assert b as real <= v * 256.0 < b as real + 1.0;
    }
  }

  /** `TextureCoord(u, v)`. */
  datatype TextureCoord = TextureCoord(u: real, v: real)

  /** `Matrix`: the top three rows of a 4x4 affine transformation, column by column. */
  datatype Matrix = Matrix(x00: real, x10: real, x20: real, x30: real,
                           x01: real, x11: real, x21: real, x31: real,
                           x02: real, x12: real, x22: real, x32: real) {

    /** `apply(v)` (`transform(m, v)`). */
    function Apply(v: VectorF): (r: VectorF)
      ensures this == Identity ==> r == v
    {
      VectorF(v.x * x00 + v.y * x10 + v.z * x20 + x30,
              v.x * x01 + v.y * x11 + v.z * x21 + x31,
              v.x * x02 + v.y * x12 + v.z * x22 + x32)
    }

    /** `concat(rt)`: the transformation that applies this one, then `rt`. */
    function Concat(rt: Matrix): (r: Matrix)
      ensures this == Identity ==> r == rt
      ensures rt == Identity ==> r == this
    {
      Matrix(x00 * rt.x00 + x01 * rt.x10 + x02 * rt.x20,
             x10 * rt.x00 + x11 * rt.x10 + x12 * rt.x20,
             x20 * rt.x00 + x21 * rt.x10 + x22 * rt.x20,
             x30 * rt.x00 + x31 * rt.x10 + x32 * rt.x20 + rt.x30,
             x00 * rt.x01 + x01 * rt.x11 + x02 * rt.x21,
             x10 * rt.x01 + x11 * rt.x11 + x12 * rt.x21,
             x20 * rt.x01 + x21 * rt.x11 + x22 * rt.x21,
             x30 * rt.x01 + x31 * rt.x11 + x32 * rt.x21 + rt.x31,
             x00 * rt.x02 + x01 * rt.x12 + x02 * rt.x22,
             x10 * rt.x02 + x11 * rt.x12 + x12 * rt.x22,
             x20 * rt.x02 + x21 * rt.x12 + x22 * rt.x22,
             x30 * rt.x02 + x31 * rt.x12 + x32 * rt.x22 + rt.x32)
    }
  }

  /** Applying a concatenation applies the two transformations in turn. */
  lemma ConcatApplies(a: Matrix, b: Matrix, v: VectorF)
    ensures a.Concat(b).Apply(v) == b.Apply(a.Apply(v))
  {
    ConcatAppliesX(a, b, v);
    ConcatAppliesY(a, b, v);
    ConcatAppliesZ(a, b, v);
  }

  lemma ConcatAppliesX(a: Matrix, b: Matrix, v: VectorF)
    ensures a.Concat(b).Apply(v).x == b.Apply(a.Apply(v)).x
  {
    Distribute(v.x * a.x00, v.y * a.x10, v.z * a.x20, a.x30, b.x00);
    Distribute(v.x * a.x01, v.y * a.x11, v.z * a.x21, a.x31, b.x10);
    Distribute(v.x * a.x02, v.y * a.x12, v.z * a.x22, a.x32, b.x20);
  }

  lemma ConcatAppliesY(a: Matrix, b: Matrix, v: VectorF)
    ensures a.Concat(b).Apply(v).y == b.Apply(a.Apply(v)).y
  {
    Distribute(v.x * a.x00, v.y * a.x10, v.z * a.x20, a.x30, b.x01);
    Distribute(v.x * a.x01, v.y * a.x11, v.z * a.x21, a.x31, b.x11);
    Distribute(v.x * a.x02, v.y * a.x12, v.z * a.x22, a.x32, b.x21);
  }

  lemma ConcatAppliesZ(a: Matrix, b: Matrix, v: VectorF)
    ensures a.Concat(b).Apply(v).z == b.Apply(a.Apply(v)).z
  {
    Distribute(v.x * a.x00, v.y * a.x10, v.z * a.x20, a.x30, b.x02);
    Distribute(v.x * a.x01, v.y * a.x11, v.z * a.x21, a.x31, b.x12);
    Distribute(v.x * a.x02, v.y * a.x12, v.z * a.x22, a.x32, b.x22);
  }

  lemma Distribute(p: real, q: real, r: real, s: real, k: real)
    ensures (p + q + r + s) * k == p * k + q * k + r * k + s * k
  {
  }

  /** The identity is neutral on both sides of a concatenation. */
  lemma ConcatIdentity(a: Matrix)
    ensures a.Concat(Identity) == a && Identity.Concat(a) == a
  {
  }

  /** `Matrix::identity()`. */
  const Identity := Matrix(1.0, 0.0, 0.0, 0.0, 0.0, 1.0, 0.0, 0.0, 0.0, 0.0, 1.0, 0.0)

  /** The identity matrix maps every point to itself, and the white factor keeps every
      colour. */
  lemma NeutralTransform(v: VectorF, c: Color)
    ensures Identity.Apply(v) == v
    ensures ScaleColor(c, White) == c
  {
  }
}
