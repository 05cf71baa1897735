/** generate.h: inverting the winding of a mesh, and the quadrilateral and unit-box
    generators. */
module Generate {
  import opened Wrappers
  import opened Geometry
  import opened Images
  import opened Meshes
  import opened Sequences

  /** One triangle of `invert`: its first two vertices exchanged, which reverses the
      winding order. */
  function Flip(t: Triangle): (r: Triangle)
    ensures r.p2 == t.p2 && r.c2 == t.c2 && r.t2 == t.t2
    ensures r == t <==> t.p0 == t.p1 && t.c0 == t.c1 && t.t0 == t.t1
  {
    Triangle(t.p1, t.c1, t.t1, t.p0, t.c0, t.t0, t.p2, t.c2, t.t2)
  }

  function FlipAll(tris: seq<Triangle>): (r: seq<Triangle>)
    ensures |r| == |tris|
  {
    seq(|tris|, i requires 0 <= i < |tris| => Flip(tris[i]))
  }

  lemma FlipAllSnoc(tris: seq<Triangle>, t: Triangle)
    ensures FlipAll(tris + [t]) == FlipAll(tris) + [Flip(t)]
  {
    var l, r := FlipAll(tris + [t]), FlipAll(tris) + [Flip(t)];
    forall i | 0 <= i < |l|
      ensures l[i] == r[i]
    {
      if i < |tris| {
        assert (tris + [t])[i] == tris[i];
      }
    }
  }

  /** Inverting twice gives the triangles back. */
  lemma FlipTwice(tris: seq<Triangle>)
    ensures FlipAll(FlipAll(tris)) == tris
  {
    forall i | 0 <= i < |tris|
      ensures FlipAll(FlipAll(tris))[i] == tris[i]
    {
    }
  }

  /** Inverting commutes with transforming: the inverted transformed mesh is the
      transformed inverted mesh. */
  lemma FlipTransform(tform: Matrix, factor: Color, tris: seq<Triangle>)
    ensures FlipAll(TransformAll(tform, factor, tris)) == TransformAll(tform, factor, FlipAll(tris))
  {
    forall i | 0 <= i < |tris|
      ensures FlipAll(TransformAll(tform, factor, tris))[i] == TransformAll(tform, factor, FlipAll(tris))[i]
    {
    }
  }

  /** `invert(mesh)`: every triangle, visited from `begin()` to `end()`, flipped into a
      new mesh with the same texture. */
  method Invert(mesh: Mesh) returns (r: Mesh)
    requires mesh.Valid()
    ensures fresh(r) && r.Valid() && r.texture == mesh.texture
    ensures r.Triangles() == FlipAll(mesh.Triangles())
  {
    var triangles := [];
    ghost var all := mesh.Triangles();
    var it, last := mesh.Begin(), mesh.End();
    mesh.EndIsSize();
    while !it.Equals(last)
      invariant |triangles| <= mesh.length && it == MeshIterator(9 * |triangles|, 12 * |triangles|, 6 * |triangles|)
      invariant last == MeshIterator(9 * mesh.length, 12 * mesh.length, 6 * mesh.length)
      invariant triangles == FlipAll(all[..|triangles|])
      decreases mesh.length - |triangles|
    {
      assert |triangles| < mesh.length;
      mesh.DerefIsTriangle(|triangles|);
      var tri := Flip(mesh.Deref(it));
      SliceLaws(all, |triangles|);
      FlipAllSnoc(all[..|triangles|], all[|triangles|]);
      triangles := triangles + [tri];
      it := it.Plus(1);
    }
    assert all[..|triangles|] == all;
    r := new Mesh.FromTriangles(mesh.texture, triangles);
  }

  /** `invert(TransformedMesh)`: the mesh inverted, the transformation and the colour
      factor kept. */
  method InvertTransformed(tm: TransformedMesh) returns (r: TransformedMesh)
    requires tm.mesh != null && tm.mesh.Valid()
    ensures r.tform == tm.tform && r.factor == tm.factor
    ensures r.mesh != null && fresh(r.mesh) && r.mesh.Valid() && r.mesh.texture == tm.mesh.texture
    ensures r.mesh.Triangles() == FlipAll(tm.mesh.Triangles())
  {
    var inverted := Invert(tm.mesh);
    r := tm.(mesh := inverted);
  }

  /** The two triangles of `quadrilateral`: `p1 p2 p3` and `p3 p4 p1`, the corners taking
      the descriptor's rectangle corners `(minU, minV)`, `(maxU, minV)`, `(maxU, maxV)`
      and `(minU, maxV)`. */
  function QuadTriangles(tex: TextureDescriptor, p1: VectorF, c1: Color, p2: VectorF, c2: Color,
                         p3: VectorF, c3: Color, p4: VectorF, c4: Color): (r: seq<Triangle>)
    ensures |r| == 2
  {
    var t1 := TextureCoord(tex.minU, tex.minV);
    var t2 := TextureCoord(tex.maxU, tex.minV);
    var t3 := TextureCoord(tex.maxU, tex.maxV);
    var t4 := TextureCoord(tex.minU, tex.maxV);
    [Triangle(p1, c1, t1, p2, c2, t2, p3, c3, t3), Triangle(p3, c3, t3, p4, c4, t4, p1, c1, t1)]
  }

  /** The two triangles share the diagonal `p1 p3`, traversed in opposite directions, so
      both have the winding of the quadrilateral; together their vertices are the four
      corners, and every texture coordinate is a corner of the descriptor's rectangle,
      the unit square placed in it. */
  lemma QuadShape(tex: TextureDescriptor, p1: VectorF, c1: Color, p2: VectorF, c2: Color,
                  p3: VectorF, c3: Color, p4: VectorF, c4: Color)
    ensures var q := QuadTriangles(tex, p1, c1, p2, c2, p3, c3, p4, c4);
      q[0].p0 == q[1].p2 == p1 && q[0].p2 == q[1].p0 == p3
    ensures var q := QuadTriangles(tex, p1, c1, p2, c2, p3, c3, p4, c4);
      {q[0].p0, q[0].p1, q[0].p2, q[1].p0, q[1].p1, q[1].p2} == {p1, p2, p3, p4}
    ensures var q := QuadTriangles(tex, p1, c1, p2, c2, p3, c3, p4, c4);
      q == [tex.PlaceTriangle(q[0].(t0 := TextureCoord(0.0, 0.0), t1 := TextureCoord(1.0, 0.0), t2 := TextureCoord(1.0, 1.0))),
            tex.PlaceTriangle(q[1].(t0 := TextureCoord(1.0, 1.0), t1 := TextureCoord(0.0, 1.0), t2 := TextureCoord(0.0, 0.0)))]
  {
  }

  /** `Generate::quadrilateral`: a new mesh of the two triangles, with the descriptor's
      image as its texture. */
  method Quadrilateral(tex: TextureDescriptor, p1: VectorF, c1: Color, p2: VectorF, c2: Color,
                       p3: VectorF, c3: Color, p4: VectorF, c4: Color) returns (m: Mesh)
    ensures fresh(m) && m.Valid() && m.texture == tex.image
    ensures m.Triangles() == QuadTriangles(tex, p1, c1, p2, c2, p3, c3, p4, c4)
  {
    m := new Mesh.FromTriangles(tex.image, QuadTriangles(tex, p1, c1, p2, c2, p3, c3, p4, c4));
  }

  // ---------------------------------------------------------------------------
  // The unit box

  /** One face of `unitBox`: its descriptor and its corners in quadrilateral order. */
  datatype Face = Face(tex: TextureDescriptor, a: VectorF, b: VectorF, c: VectorF, d: VectorF)

  /** The triangles a present face adds: its quadrilateral in opaque white. */
  function FaceTriangles(f: Face): seq<Triangle>
  {
    QuadTriangles(f.tex, f.a, White, f.b, White, f.c, White, f.d, White)
  }

  /** The corners of the unit cube; `Corner(x, y, z)` is `p(x + 2y + 4z)` of `unitBox`. */
  function Corner(x: bool, y: bool, z: bool): VectorF
  {
    VectorF(if x then 1.0 else 0.0, if y then 1.0 else 0.0, if z then 1.0 else 0.0)
  }

  /** The six faces in the order `unitBox` adds them: -x, +x, -y, +y, -z, +z. */
  function BoxFaces(nx: TextureDescriptor, px: TextureDescriptor, ny: TextureDescriptor,
                    py: TextureDescriptor, nz: TextureDescriptor, pz: TextureDescriptor): (faces: seq<Face>)
    ensures |faces| == 6
  {
    var p0, p1, p2, p3 := Corner(false, false, false), Corner(true, false, false), Corner(false, true, false), Corner(true, true, false);
    var p4, p5, p6, p7 := Corner(false, false, true), Corner(true, false, true), Corner(false, true, true), Corner(true, true, true);
    [Face(nx, p0, p4, p6, p2), Face(px, p5, p1, p3, p7),
     Face(ny, p0, p1, p5, p4), Face(py, p6, p7, p3, p2),
     Face(nz, p1, p0, p2, p3), Face(pz, p4, p5, p7, p6)]
  }

  /** The texture and the triangles of a mesh built by adding the present faces in
      order, starting from an empty mesh, or the error of the first `add` that throws. */
  function Build(faces: seq<Face>): Result<(ImageHandle, seq<Triangle>), MeshError>
  {
    if |faces| == 0 then Success((null, []))
    else
      var built :- Build(faces[..|faces| - 1]);
      var f := faces[|faces| - 1];
      if !f.tex.IsSome() then Success(built)
      else if built.0 != null && f.tex.image != built.0 then Failure(ImageNotSame)
      else Success((f.tex.image, built.1 + FaceTriangles(f)))
  }

  /** All present faces have the same image. */
  predicate SameImage(faces: seq<Face>)
  {
    forall i, j :: 0 <= i < |faces| && 0 <= j < |faces| && faces[i].tex.IsSome() && faces[j].tex.IsSome() ==>
      faces[i].tex.image == faces[j].tex.image
  }

  /** The number of present faces. */
  function PresentCount(faces: seq<Face>): (n: nat)
    ensures n <= |faces|
  {
    if |faces| == 0 then 0
    else PresentCount(faces[..|faces| - 1]) + (if faces[|faces| - 1].tex.IsSome() then 1 else 0)
  }

  /** Building succeeds exactly when all present faces have one image; the mesh then has
      that image as its texture (none when no face is present) and two triangles per
      present face. */
  lemma {:induction false} BuildSpec(faces: seq<Face>)
    ensures Build(faces).Success? <==> SameImage(faces)
    ensures Build(faces).Success? ==> |Build(faces).value.1| == 2 * PresentCount(faces)
    ensures Build(faces).Success? ==> forall i :: 0 <= i < |faces| && faces[i].tex.IsSome() ==> Build(faces).value.0 == faces[i].tex.image
    ensures Build(faces).Success? && (forall i :: 0 <= i < |faces| ==> !faces[i].tex.IsSome()) ==> Build(faces).value.0 == null
  {
    if |faces| > 0 {
      var init := faces[..|faces| - 1];
      var f := faces[|faces| - 1];
      BuildSpec(init);
      assert forall i :: 0 <= i < |init| ==> init[i] == faces[i];
      if SameImage(faces) {
        assert SameImage(init);
      } else if SameImage(init) && Build(init).Success? {
        var i, j :| 0 <= i < |faces| && 0 <= j < |faces| && faces[i].tex.IsSome() && faces[j].tex.IsSome()
          && faces[i].tex.image != faces[j].tex.image;
        assert i == |faces| - 1 || j == |faces| - 1;
      }
    }
  }

  /** Every triangle of a face lies in the face's plane: the -x face at `x == 0`, the
      +x face at `x == 1`, and so on. */
  lemma BoxFacesArePlanes(nx: TextureDescriptor, px: TextureDescriptor, ny: TextureDescriptor,
                          py: TextureDescriptor, nz: TextureDescriptor, pz: TextureDescriptor, k: nat, t: Triangle)
    requires k < 6 && t in FaceTriangles(BoxFaces(nx, px, ny, py, nz, pz)[k])
    ensures k == 0 ==> t.p0.x == t.p1.x == t.p2.x == 0.0
    ensures k == 1 ==> t.p0.x == t.p1.x == t.p2.x == 1.0
    ensures k == 2 ==> t.p0.y == t.p1.y == t.p2.y == 0.0
    ensures k == 3 ==> t.p0.y == t.p1.y == t.p2.y == 1.0
    ensures k == 4 ==> t.p0.z == t.p1.z == t.p2.z == 0.0
    ensures k == 5 ==> t.p0.z == t.p1.z == t.p2.z == 1.0
  {
  }

  /** `retval->add(quadrilateral(…))` for face `k`, when its descriptor is present. */
  method AddFace(box: Mesh, faces: seq<Face>, k: nat) returns (r: Result<Unit, MeshError>)
    requires k < |faces| && box.Valid() && Build(faces[..k]) == Success((box.texture, box.Triangles()))
    modifies box
    ensures box.Valid()
    ensures r.Failure? <==> Build(faces[..k + 1]).Failure?
    ensures r.Success? ==> Build(faces[..k + 1]) == Success((box.texture, box.Triangles()))
  {
    var f := faces[k];
    assert faces[..k + 1][..k] == faces[..k];
    if f.tex.IsSome() {
      var quad := Quadrilateral(f.tex, f.a, White, f.b, White, f.c, White, f.d, White);
      r := box.Add(quad);
    } else {
      r := Success(Unit);
    }
  }

  /** `Generate::unitBox`: the present faces of the box from `<0, 0, 0>` to `<1, 1, 1>`,
      added in turn to an empty mesh; an `add` that throws ends it with that error. */
  method UnitBox(nx: TextureDescriptor, px: TextureDescriptor, ny: TextureDescriptor,
                 py: TextureDescriptor, nz: TextureDescriptor, pz: TextureDescriptor) returns (r: Result<Mesh, MeshError>)
    ensures r.Failure? <==> Build(BoxFaces(nx, px, ny, py, nz, pz)).Failure?
    ensures r.Success? ==> fresh(r.value) && r.value.Valid()
    ensures r.Success? ==> Build(BoxFaces(nx, px, ny, py, nz, pz)) == Success((r.value.texture, r.value.Triangles()))
  {
    var faces := BoxFaces(nx, px, ny, py, nz, pz);
    var box := new Mesh.Empty();
    assert faces[..0] == [];
    var added0 := AddFace(box, faces, 0);
    // the first face added to an empty mesh cannot clash with its texture
    assert added0.Success?;
    var added1 := AddFace(box, faces, 1);
    if added1.Failure? {
      FailureEnds(faces, 2);
      return Failure(added1.error);
    }
    var added2 := AddFace(box, faces, 2);
    if added2.Failure? {
      FailureEnds(faces, 3);
      return Failure(added2.error);
    }
    var added3 := AddFace(box, faces, 3);
    if added3.Failure? {
      FailureEnds(faces, 4);
      return Failure(added3.error);
    }
    var added4 := AddFace(box, faces, 4);
    if added4.Failure? {
      FailureEnds(faces, 5);
      return Failure(added4.error);
    }
    var added5 := AddFace(box, faces, 5);
    if added5.Failure? {
      FailureEnds(faces, 6);
      return Failure(added5.error);
    }
    assert faces[..6] == faces;
    return Success(box);
  }

  lemma FailureEnds(faces: seq<Face>, k: nat)
    requires k <= |faces| && Build(faces[..k]).Failure?
    ensures Build(faces).Failure?
  {
    BuildFailureSticks(faces[..k], faces[k..]);
    assert faces[..k] + faces[k..] == faces;
  }

  /** Once an `add` fails, adding further faces cannot succeed. */
  lemma {:induction false} BuildFailureSticks(done: seq<Face>, rest: seq<Face>)
    requires Build(done).Failure?
    ensures Build(done + rest).Failure?
    decreases |rest|
  {
    if |rest| == 0 {
      assert done + rest == done;
    } else {
      var init := rest[..|rest| - 1];
      BuildFailureSticks(done, init);
      assert (done + rest)[..|done + rest| - 1] == done + init;
    }
  }
}
