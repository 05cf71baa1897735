/** `interpolateColors` of mesh.h: the vertices of a mesh are copied into another mesh
    with their colours scaled by the trilinear interpolation, at the vertex's point, of
    eight colours given for the corners of the unit cube. */
module Shading {
  import opened Wrappers
  import opened Geometry
  import opened Meshes
  import opened Sequences

  /** The colours for the corners of the unit cube; `nxpynz` is the corner with
      negative (0) x, positive (1) y and negative (0) z. */
  datatype Corners = Corners(nxnynz: Color, nxnypz: Color, nxpynz: Color, nxpypz: Color,
                             pxnynz: Color, pxnypz: Color, pxpynz: Color, pxpypz: Color)

  /** `interpolate(x, interpolate(y, interpolate(z, …), …), …)`: along z, then y, then x. */
  function Trilinear(k: Corners, p: VectorF): (r: Color)
    ensures p == VectorF(0.0, 0.0, 0.0) ==> r == k.nxnynz
    ensures p == VectorF(1.0, 1.0, 1.0) ==> r == k.pxpypz
    ensures k.nxnynz == k.nxnypz == k.nxpynz == k.nxpypz == k.pxnynz == k.pxnypz == k.pxpynz == k.pxpypz
            ==> r == k.nxnynz
  {
    InterpolateColor(p.x,
      InterpolateColor(p.y, InterpolateColor(p.z, k.nxnynz, k.nxnypz), InterpolateColor(p.z, k.nxpynz, k.nxpypz)),
      InterpolateColor(p.y, InterpolateColor(p.z, k.pxnynz, k.pxnypz), InterpolateColor(p.z, k.pxpynz, k.pxpypz)))
  }

  /** At each corner of the unit cube the interpolation is that corner's colour. */
  lemma TrilinearAtCorners(k: Corners)
    ensures Trilinear(k, VectorF(0.0, 0.0, 0.0)) == k.nxnynz
    ensures Trilinear(k, VectorF(0.0, 0.0, 1.0)) == k.nxnypz
    ensures Trilinear(k, VectorF(0.0, 1.0, 0.0)) == k.nxpynz
    ensures Trilinear(k, VectorF(0.0, 1.0, 1.0)) == k.nxpypz
    ensures Trilinear(k, VectorF(1.0, 0.0, 0.0)) == k.pxnynz
    ensures Trilinear(k, VectorF(1.0, 0.0, 1.0)) == k.pxnypz
    ensures Trilinear(k, VectorF(1.0, 1.0, 0.0)) == k.pxpynz
    ensures Trilinear(k, VectorF(1.0, 1.0, 1.0)) == k.pxpypz
  {
  }

  /** When all eight corners have one colour, every point gets that colour. */
  lemma TrilinearConstant(c: Color, p: VectorF)
    ensures Trilinear(Corners(c, c, c, c, c, c, c, c), p) == c
  {
  }

  /** A vertex colour scaled by the interpolation at the vertex's point. */
  function ShadeVertex(k: Corners, p: VectorF, c: Color): Color
  {
    ScaleColor(c, Trilinear(k, p))
  }

  /** `tri` with each vertex colour shaded; points and texture coordinates kept. */
  function ShadeTriangle(k: Corners, t: Triangle): Triangle
  {
    t.(c0 := ShadeVertex(k, t.p0, t.c0), c1 := ShadeVertex(k, t.p1, t.c1), c2 := ShadeVertex(k, t.p2, t.c2))
  }

  function ShadeAll(k: Corners, tris: seq<Triangle>): (r: seq<Triangle>)
    ensures |r| == |tris|
  {
    seq(|tris|, i requires 0 <= i < |tris| => ShadeTriangle(k, tris[i]))
  }

  /** With all corners opaque white the shading keeps every triangle. */
  lemma ShadeWhite(tris: seq<Triangle>)
    ensures ShadeAll(Corners(White, White, White, White, White, White, White, White), tris) == tris
  {
    var k := Corners(White, White, White, White, White, White, White, White);
    forall i | 0 <= i < |tris|
      ensures ShadeTriangle(k, tris[i]) == tris[i]
    {
      var t := tris[i];
      TrilinearConstant(White, t.p0);
      TrilinearConstant(White, t.p1);
      TrilinearConstant(White, t.p2);
      NeutralTransform(t.p0, t.c0);
      NeutralTransform(t.p1, t.c1);
      NeutralTransform(t.p2, t.c2);
    }
  }

  /** The loop of `interpolateColors` as written: it runs once per triangle
      (`i < mesh->length`) but copies one vertex per iteration, three point floats and
      four colour floats, while the length grows by the triangle count and all six
      texture-coordinate floats per triangle are copied. */
  method AppendShadedAsWritten(dest: Mesh, mesh: Mesh, k: Corners)
    requires dest != mesh && dest.Valid() && mesh.Valid()
    modifies dest
    ensures dest.texture == old(dest.texture) && dest.length == old(dest.length) + mesh.length
    ensures |dest.points| == |old(dest.points)| + 3 * mesh.length
    ensures |dest.colors| == |old(dest.colors)| + 4 * mesh.length
    ensures |dest.textureCoords| == |old(dest.textureCoords)| + 6 * mesh.length
    ensures mesh.length > 0 ==> !dest.Valid()
  {
    dest.length := dest.length + mesh.length;
    dest.textureCoords := dest.textureCoords + mesh.textureCoords;
    var vi, ci := 0, 0;
    for i := 0 to mesh.length
      invariant vi == 3 * i && ci == 4 * i
      invariant dest.texture == old(dest.texture) && dest.length == old(dest.length) + mesh.length
      invariant |dest.points| == |old(dest.points)| + 3 * i && |dest.colors| == |old(dest.colors)| + 4 * i
      invariant dest.textureCoords == old(dest.textureCoords) + mesh.textureCoords
    {
      var x, y, z := mesh.points[vi], mesh.points[vi + 1], mesh.points[vi + 2];
      vi := vi + 3;
      dest.points := dest.points + [x, y, z];
      var c := Color(mesh.colors[ci], mesh.colors[ci + 1], mesh.colors[ci + 2], mesh.colors[ci + 3]);
      ci := ci + 4;
      c := ShadeVertex(k, VectorF(x, y, z), c);
      dest.colors := dest.colors + [c.r, c.g, c.b, c.a];
    }
  }

  /** The loop of `interpolateColors`, run once per vertex: each vertex's point is
      copied and its colour shaded; the texture coordinates are copied as they are. */
  method AppendShaded(dest: Mesh, mesh: Mesh, k: Corners)
    requires dest != mesh && dest.Valid() && mesh.Valid()
    modifies dest
    ensures dest.Valid() && dest.texture == old(dest.texture)
    ensures dest.Triangles() == old(dest.Triangles()) + ShadeAll(k, mesh.Triangles())
  {
    ghost var p0, c0, t0, n0 := dest.points, dest.colors, dest.textureCoords, dest.length;
    dest.length := dest.length + mesh.length;
    dest.textureCoords := dest.textureCoords + mesh.textureCoords;
    ghost var added: seq<real> := [];
    var vi, ci := 0, 0;
    for v := 0 to 3 * mesh.length
      invariant vi == 3 * v && ci == 4 * v
      invariant dest.texture == old(dest.texture) && dest.length == n0 + mesh.length
      invariant dest.textureCoords == t0 + mesh.textureCoords
      invariant dest.points == p0 + mesh.points[..vi]
      invariant dest.colors == c0 + added && |added| == 4 * v
      invariant forall j :: 0 <= j < v ==> ColorAt(added, j) == ShadeVertex(k, PointAt(mesh.points, j), ColorAt(mesh.colors, j))
    {
      var x, y, z := mesh.points[vi], mesh.points[vi + 1], mesh.points[vi + 2];
      assert mesh.points[..vi + 3] == mesh.points[..vi] + [x, y, z];
      vi := vi + 3;
      AppendAssoc(p0, mesh.points[..vi - 3], [x, y, z]);
      dest.points := dest.points + [x, y, z];
      var c := Color(mesh.colors[ci], mesh.colors[ci + 1], mesh.colors[ci + 2], mesh.colors[ci + 3]);
      ci := ci + 4;
      c := ShadeVertex(k, VectorF(x, y, z), c);
      AppendAssoc(c0, added, [c.r, c.g, c.b, c.a]);
      added := added + [c.r, c.g, c.b, c.a];
      dest.colors := dest.colors + [c.r, c.g, c.b, c.a];
      assert ColorAt(added, v) == ShadeVertex(k, PointAt(mesh.points, v), ColorAt(mesh.colors, v));
    }
    assert mesh.points[..vi] == mesh.points;
    ShadedArrays(k, mesh.points, mesh.colors, mesh.textureCoords, added, mesh.length);
    DecodeAppend(p0, c0, t0, n0, mesh.points, added, mesh.textureCoords, mesh.length);
  }

  /** Arrays whose colours are the shaded colours of another's decode to the shaded
      triangles. */
  lemma ShadedArrays(k: Corners, points: seq<real>, colors: seq<real>, coords: seq<real>, shaded: seq<real>, n: nat)
    requires Strided(points, colors, coords, n) && |shaded| == 12 * n
    requires forall j :: 0 <= j < 3 * n ==> ColorAt(shaded, j) == ShadeVertex(k, PointAt(points, j), ColorAt(colors, j))
    ensures Decode(points, shaded, coords, n) == ShadeAll(k, Decode(points, colors, coords, n))
  {
    forall i | 0 <= i < n
      ensures TriangleAt(points, shaded, coords, i) == ShadeTriangle(k, TriangleAt(points, colors, coords, i))
    {
      assert ColorAt(shaded, 3 * i) == ShadeVertex(k, PointAt(points, 3 * i), ColorAt(colors, 3 * i));
      assert ColorAt(shaded, 3 * i + 1) == ShadeVertex(k, PointAt(points, 3 * i + 1), ColorAt(colors, 3 * i + 1));
      assert ColorAt(shaded, 3 * i + 2) == ShadeVertex(k, PointAt(points, 3 * i + 2), ColorAt(colors, 3 * i + 2));
    }
  }

  /** `interpolateColors(dest, mesh, …)` with the loop run once per vertex: the texture
      rule of `add`, then `mesh`'s triangles appended to `dest` with their colours
      shaded. */
  method InterpolateColorsInto(dest: Mesh, mesh: Mesh, k: Corners) returns (r: Result<Unit, MeshError>)
    requires dest != mesh && dest.Valid() && mesh.Valid()
    modifies dest
    ensures dest.Valid()
    ensures r.Failure? <==> old(dest.texture) != null && mesh.texture != null && mesh.texture != old(dest.texture)
    ensures r.Failure? ==> unchanged(dest)
    ensures r.Success? ==> dest.texture == (if old(dest.texture) != null then old(dest.texture) else mesh.texture)
    ensures r.Success? ==> dest.Triangles() == old(dest.Triangles()) + ShadeAll(k, mesh.Triangles())
  {
    r := dest.AdoptTexture(mesh.texture);
    if r.Failure? {
      return;
    }
    AppendShaded(dest, mesh, k);
  }

  /** `interpolateColors(mesh, …)` with the loop run once per vertex: a new mesh with
      `mesh`'s texture and its triangles, colours shaded. */
  method InterpolateColors(mesh: Mesh, k: Corners) returns (dest: Mesh)
    requires mesh.Valid()
    ensures fresh(dest) && dest.Valid() && dest.texture == mesh.texture
    ensures dest.Triangles() == ShadeAll(k, mesh.Triangles())
  {
    dest := new Mesh.Empty();
    dest.texture := mesh.texture;
    AppendShaded(dest, mesh, k);
  }
}
