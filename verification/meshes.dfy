/** `Mesh_t` of mesh.h: a list of triangles stored as three parallel float arrays,
    nine point floats, twelve colour floats and six texture-coordinate floats per
    triangle, together with the one texture every triangle is drawn with. The floats
    are only copied, transformed or scaled here; `float` is modelled as `real`. */
module Meshes {
  import opened Wrappers
  import opened Integers
  import opened Geometry
  import opened Images
  import opened Sequences

  /** `Triangle`: three vertices, each a point, a colour and a texture coordinate. */
  datatype Triangle = Triangle(p0: VectorF, c0: Color, t0: TextureCoord,
                               p1: VectorF, c1: Color, t1: TextureCoord,
                               p2: VectorF, c2: Color, t2: TextureCoord)

  /** A texture descriptor: an image and the rectangle `[minU, maxU] x [minV, maxV]` of
      it that a mesh is drawn with. texture_descriptor.h is not part of this model; a
      descriptor is taken to test true exactly when it holds an image. */
  datatype TextureDescriptor = TextureDescriptor(image: ImageHandle, minU: real, maxU: real, minV: real, maxV: real)
  {
    predicate IsSome()
    {
      image != null
    }

    /** The texture coordinate `t` of the unit square, placed in the rectangle. */
    function Place(t: TextureCoord): TextureCoord
    {
      TextureCoord(Interpolate(t.u, minU, maxU), Interpolate(t.v, minV, maxV))
    }

    /** `tri` with its texture coordinates placed in the rectangle. */
    function PlaceTriangle(tri: Triangle): (r: Triangle)
      ensures r.p0 == tri.p0 && r.p1 == tri.p1 && r.p2 == tri.p2
      ensures r.c0 == tri.c0 && r.c1 == tri.c1 && r.c2 == tri.c2
    {
      tri.(t0 := Place(tri.t0), t1 := Place(tri.t1), t2 := Place(tri.t2))
    }
  }

  /** `ImageNotSameException`. */
  datatype MeshError = ImageNotSame

  // ---------------------------------------------------------------------------
  // The flat layout

  function PointFloats(p: VectorF): seq<real>
  {
    [p.x, p.y, p.z]
  }

  function ColorFloats(c: Color): seq<real>
  {
    [c.r, c.g, c.b, c.a]
  }

  function CoordFloats(t: TextureCoord): seq<real>
  {
    [t.u, t.v]
  }

  /** The floats the constructors push for one triangle. */
  function TrianglePoints(t: Triangle): (r: seq<real>)
    ensures |r| == 9
  {
    PointFloats(t.p0) + PointFloats(t.p1) + PointFloats(t.p2)
  }

  function TriangleColors(t: Triangle): (r: seq<real>)
    ensures |r| == 12
  {
    ColorFloats(t.c0) + ColorFloats(t.c1) + ColorFloats(t.c2)
  }

  function TriangleCoords(t: Triangle): (r: seq<real>)
    ensures |r| == 6
  {
    CoordFloats(t.t0) + CoordFloats(t.t1) + CoordFloats(t.t2)
  }

  /** The three arrays of a list of triangles, triangle after triangle. */
  function PointsOf(tris: seq<Triangle>): (r: seq<real>)
    ensures |r| == 9 * |tris|
  {
    if |tris| == 0 then [] else PointsOf(tris[..|tris| - 1]) + TrianglePoints(tris[|tris| - 1])
  }

  function ColorsOf(tris: seq<Triangle>): (r: seq<real>)
    ensures |r| == 12 * |tris|
  {
    if |tris| == 0 then [] else ColorsOf(tris[..|tris| - 1]) + TriangleColors(tris[|tris| - 1])
  }

  function CoordsOf(tris: seq<Triangle>): (r: seq<real>)
    ensures |r| == 6 * |tris|
  {
    if |tris| == 0 then [] else CoordsOf(tris[..|tris| - 1]) + TriangleCoords(tris[|tris| - 1])
  }

  /** The point, colour and texture coordinate whose floats start at offset `k`. */
  function PointFrom(points: seq<real>, k: nat): VectorF
    requires k + 3 <= |points|
  {
    VectorF(points[k], points[k + 1], points[k + 2])
  }

  function ColorFrom(colors: seq<real>, k: nat): Color
    requires k + 4 <= |colors|
  {
    Color(colors[k], colors[k + 1], colors[k + 2], colors[k + 3])
  }

  function CoordFrom(coords: seq<real>, k: nat): TextureCoord
    requires k + 2 <= |coords|
  {
    TextureCoord(coords[k], coords[k + 1])
  }

  /** The triangle whose floats start at offsets `p`, `c` and `t` of the three arrays. */
  function TriangleFrom(points: seq<real>, colors: seq<real>, coords: seq<real>, p: nat, c: nat, t: nat): Triangle
    requires p + 9 <= |points| && c + 12 <= |colors| && t + 6 <= |coords|
  {
    Triangle(PointFrom(points, p), ColorFrom(colors, c), CoordFrom(coords, t),
             PointFrom(points, p + 3), ColorFrom(colors, c + 4), CoordFrom(coords, t + 2),
             PointFrom(points, p + 6), ColorFrom(colors, c + 8), CoordFrom(coords, t + 4))
  }

  /** Vertex `j` of the flat arrays. */
  function PointAt(points: seq<real>, j: nat): VectorF
    requires 3 * j + 3 <= |points|
  {
    PointFrom(points, 3 * j)
  }

  function ColorAt(colors: seq<real>, j: nat): Color
    requires 4 * j + 4 <= |colors|
  {
    ColorFrom(colors, 4 * j)
  }

  /** The arrays hold `n` triangles: 9, 12 and 6 floats each. */
  predicate Strided(points: seq<real>, colors: seq<real>, coords: seq<real>, n: nat)
  {
    |points| == 9 * n && |colors| == 12 * n && |coords| == 6 * n
  }

  /** Triangle `i` of the arrays: vertices `3 i`, `3 i + 1` and `3 i + 2`. */
  function TriangleAt(points: seq<real>, colors: seq<real>, coords: seq<real>, i: nat): Triangle
    requires 9 * i + 9 <= |points| && 12 * i + 12 <= |colors| && 6 * i + 6 <= |coords|
  {
    TriangleFrom(points, colors, coords, 9 * i, 12 * i, 6 * i)
  }

  /** The triangles the arrays hold. */
  function Decode(points: seq<real>, colors: seq<real>, coords: seq<real>, n: nat): (tris: seq<Triangle>)
    requires Strided(points, colors, coords, n)
    ensures |tris| == n
  {
    seq(n, i requires 0 <= i < n => TriangleAt(points, colors, coords, i))
  }

  /** Decoding concatenated arrays decodes each part. */
  lemma DecodeAppend(p1: seq<real>, c1: seq<real>, t1: seq<real>, n1: nat,
                     p2: seq<real>, c2: seq<real>, t2: seq<real>, n2: nat)
    requires Strided(p1, c1, t1, n1) && Strided(p2, c2, t2, n2)
    ensures Strided(p1 + p2, c1 + c2, t1 + t2, n1 + n2)
    ensures Decode(p1 + p2, c1 + c2, t1 + t2, n1 + n2) == Decode(p1, c1, t1, n1) + Decode(p2, c2, t2, n2)
  {
    var d := Decode(p1 + p2, c1 + c2, t1 + t2, n1 + n2);
    var e := Decode(p1, c1, t1, n1) + Decode(p2, c2, t2, n2);
    forall i | 0 <= i < n1 + n2
      ensures d[i] == e[i]
    {
      if i >= n1 {
        assert TriangleAt(p1 + p2, c1 + c2, t1 + t2, i) == TriangleAt(p2, c2, t2, i - n1);
      }
    }
  }

  /** The arrays of a single triangle decode to that triangle. */
  lemma DecodeOne(t: Triangle)
    ensures Decode(TrianglePoints(t), TriangleColors(t), TriangleCoords(t), 1) == [t]
  {
  }

  /** Decoding the arrays of a list of triangles gives the list back. */
  lemma {:induction false} DecodeEncode(tris: seq<Triangle>)
    ensures Strided(PointsOf(tris), ColorsOf(tris), CoordsOf(tris), |tris|)
    ensures Decode(PointsOf(tris), ColorsOf(tris), CoordsOf(tris), |tris|) == tris
  {
    if |tris| > 0 {
      var n := |tris| - 1;
      var init, last := tris[..n], tris[n];
      DecodeEncode(init);
      DecodeOne(last);
      DecodeAppend(PointsOf(init), ColorsOf(init), CoordsOf(init), n,
                   TrianglePoints(last), TriangleColors(last), TriangleCoords(last), 1);
      assert init + [last] == tris;
    }
  }

  /** Encoding the triangles the arrays hold gives the arrays back: the arrays and the
      triangle list determine each other. */
  lemma {:induction false} EncodeDecode(points: seq<real>, colors: seq<real>, coords: seq<real>, n: nat)
    requires Strided(points, colors, coords, n)
    ensures PointsOf(Decode(points, colors, coords, n)) == points
    ensures ColorsOf(Decode(points, colors, coords, n)) == colors
    ensures CoordsOf(Decode(points, colors, coords, n)) == coords
  {
    if n > 0 {
      var p1, c1, t1 := points[..9 * (n - 1)], colors[..12 * (n - 1)], coords[..6 * (n - 1)];
      var p2, c2, t2 := points[9 * (n - 1)..], colors[12 * (n - 1)..], coords[6 * (n - 1)..];
      SplitLast(points, colors, coords, n);
      EncodeDecode(p1, c1, t1, n - 1);
      DecodeAppend(p1, c1, t1, n - 1, p2, c2, t2, 1);
      var init, last := Decode(p1, c1, t1, n - 1), TriangleAt(p2, c2, t2, 0);
      assert Decode(p2, c2, t2, 1) == [last];
      EncodeSnoc(init, last);
      OneTriangleFloats(p2, c2, t2);
    }
  }

  /** The arrays of `n > 0` triangles are those of the first `n − 1` followed by those
      of the last one. */
  lemma SplitLast(points: seq<real>, colors: seq<real>, coords: seq<real>, n: nat)
    requires Strided(points, colors, coords, n) && n > 0
    ensures Strided(points[..9 * (n - 1)], colors[..12 * (n - 1)], coords[..6 * (n - 1)], n - 1)
    ensures Strided(points[9 * (n - 1)..], colors[12 * (n - 1)..], coords[6 * (n - 1)..], 1)
    ensures points[..9 * (n - 1)] + points[9 * (n - 1)..] == points
    ensures colors[..12 * (n - 1)] + colors[12 * (n - 1)..] == colors
    ensures coords[..6 * (n - 1)] + coords[6 * (n - 1)..] == coords
  {
    SliceLaws(points, 9 * (n - 1));
    SliceLaws(colors, 12 * (n - 1));
    SliceLaws(coords, 6 * (n - 1));
  }

  /** The floats of the one triangle that nine, twelve and six floats hold are those
      floats. */
  lemma OneTriangleFloats(points: seq<real>, colors: seq<real>, coords: seq<real>)
    requires Strided(points, colors, coords, 1)
    ensures TrianglePoints(TriangleAt(points, colors, coords, 0)) == points
    ensures TriangleColors(TriangleAt(points, colors, coords, 0)) == colors
    ensures TriangleCoords(TriangleAt(points, colors, coords, 0)) == coords
  {
  }

  /** Appending one triangle's floats to the arrays of a list appends it to the list. */
  lemma EncodeSnoc(tris: seq<Triangle>, t: Triangle)
    ensures PointsOf(tris + [t]) == PointsOf(tris) + TrianglePoints(t)
    ensures ColorsOf(tris + [t]) == ColorsOf(tris) + TriangleColors(t)
    ensures CoordsOf(tris + [t]) == CoordsOf(tris) + TriangleCoords(t)
  {
    assert (tris + [t])[..|tris|] == tris;
  }

  // ---------------------------------------------------------------------------
  // Transformed meshes

  /** `transform(m, tri)` together with `scale(c, factor)` on every vertex colour: what
      converting a `TransformedMesh` does to each triangle. */
  function TransformTriangle(tform: Matrix, factor: Color, t: Triangle): Triangle
  {
    Triangle(tform.Apply(t.p0), ScaleColor(t.c0, factor), t.t0,
             tform.Apply(t.p1), ScaleColor(t.c1, factor), t.t1,
             tform.Apply(t.p2), ScaleColor(t.c2, factor), t.t2)
  }

  function TransformAll(tform: Matrix, factor: Color, tris: seq<Triangle>): (r: seq<Triangle>)
    ensures |r| == |tris|
  {
    seq(|tris|, i requires 0 <= i < |tris| => TransformTriangle(tform, factor, tris[i]))
  }

  /** `TransformedMesh`: a mesh, the transformation of its points and the factor of its
      colours, applied when it is converted to a `Mesh`. */
  datatype TransformedMesh = TransformedMesh(mesh: Mesh?, tform: Matrix, factor: Color)

  /** `TransformedMesh()`: no mesh, the identity and opaque white. */
  function NoTransformedMesh(): TransformedMesh
  {
    TransformedMesh(null, Identity, White)
  }

  /** `transform(m, mesh)`. */
  function TransformMesh(m: Matrix, mesh: Mesh?): TransformedMesh
  {
    TransformedMesh(mesh, m, White)
  }

  /** `transform(m, tm)`: `tm`'s transformation followed by `m`. */
  function TransformAgain(m: Matrix, tm: TransformedMesh): TransformedMesh
  {
    TransformedMesh(tm.mesh, tm.tform.Concat(m), tm.factor)
  }

  /** `scaleColors(factor, mesh)`. */
  function ScaleColors(factor: Color, mesh: Mesh?): TransformedMesh
  {
    TransformedMesh(mesh, Identity, factor)
  }

  /** `scaleColors(factor, tm)`: `tm`'s factor scaled by `factor`. */
  function ScaleColorsAgain(factor: Color, tm: TransformedMesh): TransformedMesh
  {
    TransformedMesh(tm.mesh, tm.tform, ScaleColor(tm.factor, factor))
  }

  /** Composing a transformed mesh with a further transformation or colour factor
      converts each triangle as converting twice would; the neutral wrapper converts
      every triangle to itself. */
  lemma TransformComposes(tm: TransformedMesh, m: Matrix, f: Color, t: Triangle)
    ensures TransformTriangle(TransformAgain(m, tm).tform, TransformAgain(m, tm).factor, t)
         == TransformTriangle(m, White, TransformTriangle(tm.tform, tm.factor, t))
    ensures TransformTriangle(ScaleColorsAgain(f, tm).tform, ScaleColorsAgain(f, tm).factor, t)
         == TransformTriangle(Identity, f, TransformTriangle(tm.tform, tm.factor, t))
    ensures TransformTriangle(Identity, White, t) == t
  {
    ConcatApplies(tm.tform, m, t.p0);
    ConcatApplies(tm.tform, m, t.p1);
    ConcatApplies(tm.tform, m, t.p2);
    forall c: Color
      ensures ScaleColor(c, ScaleColor(tm.factor, f)) == ScaleColor(ScaleColor(c, tm.factor), f)
      ensures ScaleColor(ScaleColor(c, tm.factor), White) == ScaleColor(c, tm.factor)
    {
      ScaleAssociative(c.r, tm.factor.r, f.r);
      ScaleAssociative(c.g, tm.factor.g, f.g);
      ScaleAssociative(c.b, tm.factor.b, f.b);
      ScaleAssociative(c.a, tm.factor.a, f.a);
    }
    var u := TransformTriangle(tm.tform, tm.factor, t);
    NeutralTransform(u.p0, u.c0);
    NeutralTransform(u.p1, u.c1);
    NeutralTransform(u.p2, u.c2);
    NeutralTransform(t.p0, t.c0);
    NeutralTransform(t.p1, t.c1);
    NeutralTransform(t.p2, t.c2);
  }

  lemma ScaleAssociative(a: real, b: real, c: real)
    ensures a * (b * c) == (a * b) * c
  {
  }

  // ---------------------------------------------------------------------------
  // Iterators

  /** `Mesh_t::const_iterator`: positions in the three arrays, as offsets. */
  datatype MeshIterator = MeshIterator(point: int, color: int, coord: int)
  {
    /** `it + i`: `i` triangles further on. */
    function Plus(i: int): (r: MeshIterator)
      ensures r.SignedDifference(this) == i
      ensures i >= 0 ==> r.Difference(this) == i
      ensures r.Equals(this) <==> i == 0
      ensures Less(r) <==> i > 0
    {
      var r := MeshIterator(point + 9 * i, color + 12 * i, coord + 6 * i);
      if i < 0 then DivUnique(-6 * i, -i, 0, 6); r else DivUnique(6 * i, i, 0, 6); r
    }

    /** `it - i`. */
    function Minus(i: int): (r: MeshIterator)
      ensures r.Plus(i) == this
    {
      Plus(-i)
    }

    /** `it - r` as written: the `ptrdiff_t` distance in texture-coordinate floats is
        divided by a `size_t` constant, so a negative distance is first converted to
        `size_t` (modulo 2^64). The quotient is below 2^63, so its conversion back to
        `ssize_t` keeps it. */
    function Difference(r: MeshIterator): (d: int)
      ensures d >= 0
      ensures coord >= r.coord ==> d == SignedDifference(r)
      ensures coord < r.coord ==> d < 0x8000_0000_0000_0000
      ensures -0x1_0000_0000_0000_0000 <= coord - r.coord < 0 ==>
        6 * d <= coord - r.coord + 0x1_0000_0000_0000_0000 < 6 * d + 6
    {
      var distance := coord - r.coord;
      if distance >= 0 then distance / 6 else (distance % 0x1_0000_0000_0000_0000) / 6
    }

    /** `it - r` as evidently intended: the signed distance in texture-coordinate
        floats divided by six, truncating toward zero. */
    function SignedDifference(r: MeshIterator): (d: int)
      ensures (coord - r.coord) % 6 == 0 ==> r.coord + 6 * d == coord
      ensures (d > 0 ==> r.coord < coord) && (d < 0 ==> coord < r.coord)
    {
      TDiv(coord - r.coord, 6)
    }

    /** `==` and `<` compare the point positions only. */
    predicate Equals(r: MeshIterator)
      ensures this == r ==> Equals(r)
      ensures Equals(r) ==> !Less(r) && !r.Less(this)
    {
      point == r.point
    }

    predicate Less(r: MeshIterator)
      ensures Less(r) ==> this != r
    {
      point < r.point
    }
  }

  /** Moving by `i` then `j` moves by `i + j`; moving back undoes moving on; the
      signed distance from `it` to `it + i` is `i`, and so is the distance as written
      when `i` is not negative; and comparisons follow the distances. */
  lemma IteratorArithmetic(it: MeshIterator, i: int, j: int)
    ensures it.Plus(i).Plus(j) == it.Plus(i + j)
    ensures it.Plus(i).Minus(i) == it
    ensures it.Plus(i).SignedDifference(it) == i
    ensures i >= 0 ==> it.Plus(i).Difference(it) == i
    ensures it.Plus(i).Equals(it.Plus(j)) <==> i == j
    ensures it.Plus(i).Less(it.Plus(j)) <==> i < j
  {
    if i < 0 {
      DivUnique(-6 * i, -i, 0, 6);
    } else {
      DivUnique(6 * i, i, 0, 6);
    }
  }

  /** As written, `begin() - (begin() + 1)` on a one-triangle mesh is
      (2^64 − 6) / 6 rather than −1. */
  lemma DifferenceWraps()
    ensures MeshIterator(0, 0, 0).Difference(MeshIterator(9, 12, 6)) == 3074457345618258601
    ensures MeshIterator(0, 0, 0).SignedDifference(MeshIterator(9, 12, 6)) == -1
  {
    assert -6 % 0x1_0000_0000_0000_0000 == 0x1_0000_0000_0000_0000 - 6;
  }

  // ---------------------------------------------------------------------------
  // The mesh

  class Mesh {
    var points: seq<real>
    var colors: seq<real>
    var textureCoords: seq<real>
    var texture: ImageHandle
    var length: nat

    /** The arrays hold `length` triangles. */
    ghost predicate Valid()
      reads this
    {
      Strided(points, colors, textureCoords, length)
    }

    /** The triangles of the mesh, in order. */
    ghost function Triangles(): seq<Triangle>
      requires Valid()
      reads this
    {
      Decode(points, colors, textureCoords, length)
    }

    /** `Mesh_t()`: no triangles and no texture. */
    constructor Empty()
      ensures Valid() && Triangles() == [] && texture == null
      ensures points == [] && colors == [] && textureCoords == [] && length == 0
    {
      points, colors, textureCoords := [], [], [];
      texture := null;
      length := 0;
    }

    /** `Mesh_t(texture, triangles)`: each triangle's floats are pushed in turn. */
    constructor FromTriangles(texture: ImageHandle, tris: seq<Triangle>)
      ensures Valid() && Triangles() == tris && this.texture == texture
      ensures points == PointsOf(tris) && colors == ColorsOf(tris) && textureCoords == CoordsOf(tris)
      ensures length == |tris|
    {
      length := |tris|;
      points, colors, textureCoords := [], [], [];
      this.texture := texture;
      new;
      PushAll(tris);
      assert points == PointsOf(tris) && colors == ColorsOf(tris) && textureCoords == CoordsOf(tris);
      DecodeEncode(tris);
    }

    /** `Mesh_t(tex, triangles)`: as above, with the descriptor's image and every texture
        coordinate placed in the descriptor's rectangle. */
    constructor FromDescriptor(tex: TextureDescriptor, tris: seq<Triangle>)
      ensures Valid() && texture == tex.image && length == |tris|
      ensures Triangles() == seq(|tris|, i requires 0 <= i < |tris| => tex.PlaceTriangle(tris[i]))
    {
      length := |tris|;
      points, colors, textureCoords := [], [], [];
      texture := tex.image;
      new;
      var placed := seq(|tris|, i requires 0 <= i < |tris| => tex.PlaceTriangle(tris[i]));
      PushAll(placed);
      assert points == PointsOf(placed) && colors == ColorsOf(placed) && textureCoords == CoordsOf(placed);
      DecodeEncode(placed);
    }

    /** The loop of both constructors: the floats of each triangle pushed in turn. */
    method PushAll(tris: seq<Triangle>)
      modifies this
      ensures points == old(points) + PointsOf(tris) && colors == old(colors) + ColorsOf(tris)
      ensures textureCoords == old(textureCoords) + CoordsOf(tris)
      ensures texture == old(texture) && length == old(length)
    {
      for i := 0 to |tris|
        invariant points == old(points) + PointsOf(tris[..i]) && colors == old(colors) + ColorsOf(tris[..i])
        invariant textureCoords == old(textureCoords) + CoordsOf(tris[..i])
        invariant texture == old(texture) && length == old(length)
      {
        var tri := tris[i];
        EncodeSnoc(tris[..i], tri);
        SliceLaws(tris, i);
        AppendAssoc(old(points), PointsOf(tris[..i]), TrianglePoints(tri));
        AppendAssoc(old(colors), ColorsOf(tris[..i]), TriangleColors(tri));
        AppendAssoc(old(textureCoords), CoordsOf(tris[..i]), TriangleCoords(tri));
        points := points + TrianglePoints(tri);
        colors := colors + TriangleColors(tri);
        textureCoords := textureCoords + TriangleCoords(tri);
      }
      assert tris[..|tris|] == tris;
    }

    /** `Mesh_t(tm)`: an empty mesh when `tm` holds no mesh; otherwise a copy of its
        arrays and texture with every point transformed and every colour scaled. */
    constructor FromTransformed(tm: TransformedMesh)
      requires tm.mesh != null ==> tm.mesh.Valid()
      ensures Valid()
      ensures tm.mesh == null ==> Triangles() == [] && texture == null
      ensures tm.mesh != null ==>
        texture == tm.mesh.texture && Triangles() == TransformAll(tm.tform, tm.factor, tm.mesh.Triangles())
    {
      var src := tm.mesh;
      if src == null {
        points, colors, textureCoords := [], [], [];
        texture := null;
        length := 0;
      } else {
        points, colors, textureCoords := src.points, src.colors, src.textureCoords;
        texture := src.texture;
        length := src.length;
      }
      new;
      if src != null {
        TransformPoints(tm.tform);
        ScaleAllColors(tm.factor);
        ghost var r := Decode(points, colors, textureCoords, length);
        ghost var s := src.Triangles();
        forall i | 0 <= i < length
          ensures r[i] == TransformTriangle(tm.tform, tm.factor, s[i])
        {
          assert r[i] == TriangleAt(points, colors, textureCoords, i);
          assert s[i] == TriangleAt(src.points, src.colors, src.textureCoords, i);
          assert PointAt(points, 3 * i) == tm.tform.Apply(PointAt(src.points, 3 * i));
          assert PointAt(points, 3 * i + 1) == tm.tform.Apply(PointAt(src.points, 3 * i + 1));
          assert PointAt(points, 3 * i + 2) == tm.tform.Apply(PointAt(src.points, 3 * i + 2));
          assert ColorAt(colors, 3 * i) == ScaleColor(ColorAt(src.colors, 3 * i), tm.factor);
          assert ColorAt(colors, 3 * i + 1) == ScaleColor(ColorAt(src.colors, 3 * i + 1), tm.factor);
          assert ColorAt(colors, 3 * i + 2) == ScaleColor(ColorAt(src.colors, 3 * i + 2), tm.factor);
        }
      }
    }

    /** The loop of `Mesh_t(tm)` over the points, three floats at a time. */
    method TransformPoints(tform: Matrix)
      requires Valid()
      modifies this
      ensures Valid() && colors == old(colors) && textureCoords == old(textureCoords)
      ensures texture == old(texture) && length == old(length)
      ensures forall j :: 0 <= j < 3 * length ==> PointAt(points, j) == tform.Apply(PointAt(old(points), j))
    {
      ghost var original := points;
      for v := 0 to 3 * length
        invariant |points| == |original| && Valid()
        invariant colors == old(colors) && textureCoords == old(textureCoords)
        invariant texture == old(texture) && length == old(length)
        invariant forall j :: 0 <= j < v ==> PointAt(points, j) == tform.Apply(PointAt(original, j))
        invariant forall k :: 3 * v <= k < |points| ==> points[k] == original[k]
      {
        var p := VectorF(points[3 * v], points[3 * v + 1], points[3 * v + 2]);
        p := tform.Apply(p);
        points := points[3 * v := p.x][3 * v + 1 := p.y][3 * v + 2 := p.z];
        assert PointAt(points, v) == tform.Apply(PointAt(original, v));
      }
    }

    /** The loop of `Mesh_t(tm)` over the colours, four floats at a time. */
    method ScaleAllColors(factor: Color)
      requires Valid()
      modifies this
      ensures Valid() && points == old(points) && textureCoords == old(textureCoords)
      ensures texture == old(texture) && length == old(length)
      ensures forall j :: 0 <= j < 3 * length ==> ColorAt(colors, j) == ScaleColor(ColorAt(old(colors), j), factor)
    {
      ghost var original := colors;
      for v := 0 to 3 * length
        invariant |colors| == |original| && Valid()
        invariant points == old(points) && textureCoords == old(textureCoords)
        invariant texture == old(texture) && length == old(length)
        invariant forall j :: 0 <= j < v ==> ColorAt(colors, j) == ScaleColor(ColorAt(original, j), factor)
        invariant forall k :: 4 * v <= k < |colors| ==> colors[k] == original[k]
      {
        var c := Color(colors[4 * v], colors[4 * v + 1], colors[4 * v + 2], colors[4 * v + 3]);
        c := ScaleColor(c, factor);
        colors := colors[4 * v := c.r][4 * v + 1 := c.g][4 * v + 2 := c.b][4 * v + 3 := c.a];
        assert ColorAt(colors, v) == ScaleColor(ColorAt(original, v), factor);
      }
    }

    /** `size()`. */
    function Size(): (n: nat)
      requires Valid()
      reads this
      ensures n == |Triangles()|
    {
      length
    }

    /** `begin()` and `end()`: the starts and the ends of the three arrays. */
    function Begin(): (r: MeshIterator)
      reads this
      ensures r.point == 0 && r.color == 0 && r.coord == 0
      ensures forall i: nat :: Valid() && i < length ==> Deref(r.Plus(i)) == Triangles()[i]
    {
      MeshIterator(0, 0, 0)
    }

    function End(): (r: MeshIterator)
      reads this
      ensures Valid() ==> r == Begin().Plus(length) && r.Difference(Begin()) == length
    {
      MeshIterator(|points|, |colors|, |textureCoords|)
    }

    /** `*it`: the triangle whose floats start at the iterator's three positions. */
    function Deref(it: MeshIterator): (r: Triangle)
      requires 0 <= it.point && it.point + 9 <= |points|
      requires 0 <= it.color && it.color + 12 <= |colors|
      requires 0 <= it.coord && it.coord + 6 <= |textureCoords|
      reads this
      ensures Valid() && it.coord % 6 == 0 && it.point == 9 * (it.coord / 6) && it.color == 12 * (it.coord / 6) ==>
        r == Triangles()[it.coord / 6]
    {
      TriangleFrom(points, colors, textureCoords, it.point, it.color, it.coord)
    }

    /** `end()` is `size()` triangles after `begin()`, and `end() - begin() == size()`. */
    lemma EndIsSize()
      requires Valid()
      ensures End() == Begin().Plus(Size())
      ensures End().Difference(Begin()) == Size()
    {
      IteratorArithmetic(Begin(), length, 0);
    }

    /** `*(begin() + i)` is triangle `i`. */
    lemma DerefIsTriangle(i: nat)
      requires Valid() && i < length
      ensures Deref(Begin().Plus(i)) == Triangles()[i]
    {
      assert Triangles()[i] == TriangleAt(points, colors, textureCoords, i);
    }

    /** A `for (Triangle t : *mesh)` loop: the triangles from `begin()` to `end()`. */
    method Collect() returns (tris: seq<Triangle>)
      requires Valid()
      ensures tris == Triangles()
    {
      tris := [];
      ghost var all := Triangles();
      var it, last := Begin(), End();
      EndIsSize();
      while !it.Equals(last)
        invariant |tris| <= length && it == MeshIterator(9 * |tris|, 12 * |tris|, 6 * |tris|)
        invariant last == MeshIterator(9 * length, 12 * length, 6 * length)
        invariant tris == all[..|tris|]
        decreases length - |tris|
      {
        assert |tris| < length;
        DerefIsTriangle(|tris|);
        SliceLaws(all, |tris|);
        tris := tris + [Deref(it)];
        it := it.Plus(1);
      }
      assert all[..|tris|] == all;
    }

    /** `add(m)`: fails with `ImageNotSame`, changing nothing, when both meshes have
        textures and they differ; otherwise a mesh without a texture adopts `m`'s, and
        `m`'s triangles are appended. */
    method Add(m: Mesh) returns (r: Result<Unit, MeshError>)
      requires Valid() && m.Valid()
      modifies this
      ensures Valid()
      ensures r.Failure? <==> old(texture) != null && old(m.texture) != null && old(m.texture) != old(texture)
      ensures r.Failure? ==> unchanged(this)
      ensures r.Success? ==> texture == (if old(texture) != null then old(texture) else old(m.texture))
      ensures r.Success? ==> Triangles() == old(Triangles()) + old(m.Triangles())
      ensures r.Success? ==> length == old(length) + old(m.length) && points == old(points) + old(m.points)
      ensures r.Success? ==> colors == old(colors) + old(m.colors) && textureCoords == old(textureCoords) + old(m.textureCoords)
    {
      r := AdoptTexture(m.texture);
      if r.Failure? {
        return;
      }
      DecodeAppend(points, colors, textureCoords, length, m.points, m.colors, m.textureCoords, m.length);
      length := length + m.length;
      points := points + m.points;
      colors := colors + m.colors;
      textureCoords := textureCoords + m.textureCoords;
      return Success(Unit);
    }

    /** The texture rule of `add` and `interpolateColors`: fails when both meshes have
        textures and they differ; otherwise a mesh without a texture adopts `other`. */
    method AdoptTexture(other: ImageHandle) returns (r: Result<Unit, MeshError>)
      modifies this
      ensures r.Failure? <==> old(texture) != null && other != null && other != old(texture)
      ensures r.Success? ==> texture == (if old(texture) != null then old(texture) else other)
      ensures points == old(points) && colors == old(colors) && textureCoords == old(textureCoords)
      ensures length == old(length) && (r.Failure? ==> unchanged(this))
    {
      if texture != null {
        if other != null && other != texture {
          return Failure(ImageNotSame);
        }
      } else {
        texture := other;
      }
      return Success(Unit);
    }

    /** `add(tm)`: converts `tm` to a mesh, then adds it. */
    method AddTransformed(tm: TransformedMesh) returns (r: Result<Unit, MeshError>)
      requires Valid() && (tm.mesh != null ==> tm.mesh.Valid())
      modifies this
      ensures Valid()
      ensures r.Failure? <==> old(texture) != null && tm.mesh != null && old(tm.mesh.texture) != null && old(tm.mesh.texture) != old(texture)
      ensures r.Failure? ==> unchanged(this)
      ensures r.Success? && tm.mesh == null ==> Triangles() == old(Triangles())
      ensures r.Success? && tm.mesh != null ==>
        Triangles() == old(Triangles()) + TransformAll(tm.tform, tm.factor, old(tm.mesh.Triangles()))
    {
      var converted := new Mesh.FromTransformed(tm);
      r := Add(converted);
    }
  }
}
