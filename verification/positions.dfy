/** `PositionI` and `UpdateList` of position.h: an integer position in a dimension, and
    a queue of positions in insertion order without duplicates. */
module Positions {
  import opened Vectors
  import opened Dimensions

  /** `PositionI`: a `VectorI` together with a dimension. */
  datatype PositionI = PositionI(x: int, y: int, z: int, d: Dimension) {

    /** The vector part (`(VectorI)p`). */
    function Vector(): VectorI
    {
      VectorI(x, y, z)
    }

    /** `operator ==` on two positions: coordinates and dimension. */
    predicate Equals(r: PositionI)
    {
      x == r.x && y == r.y && z == r.z && d == r.d
    }

    /** `operator ==` between a position and a vector: coordinates only. */
    predicate EqualsVector(r: VectorI)
    {
      x == r.x && y == r.y && z == r.z
    }

    /** `p + v`, `p - v`, `p * v` and `p * k`: the vector operation, in `p`'s
        dimension. */
    function AddVector(v: VectorI): (r: PositionI)
      ensures r.d == d && r.Vector() == Vector().Add(v)
    {
      FromVector(Vector().Add(v), d)
    }

    function SubVector(v: VectorI): (r: PositionI)
      ensures r.d == d && r.Vector() == Vector().Sub(v)
    {
      FromVector(Vector().Sub(v), d)
    }

    function MulVector(v: VectorI): (r: PositionI)
      ensures r.d == d && r.Vector() == Vector().Mul(v)
    {
      FromVector(Vector().Mul(v), d)
    }

    function Scale(k: int): (r: PositionI)
      ensures r.d == d && r.Vector() == Vector().Scale(k)
    {
      FromVector(Vector().Scale(k), d)
    }

    /** Unary `-`, in the same dimension. */
    function Neg(): (r: PositionI)
      ensures r.d == d && r.Vector() == Vector().Neg()
    {
      FromVector(Vector().Neg(), d)
    }
  }

  /** `PositionI(VectorI p, Dimension d)`. */
  function FromVector(v: VectorI, d: Dimension): (p: PositionI)
    ensures p.Vector() == v && p.d == d
  {
    PositionI(v.x, v.y, v.z, d)
  }

  /** The default `PositionI()`: the origin of the overworld. */
  function Origin(): (p: PositionI)
    ensures p.Vector() == Splat(0) && p.d == Overworld
  {
    PositionI(0, 0, 0, Overworld)
  }

  /** `v + p`, `v - p`, `v * p`, `k * p`: the vector operation, in `p`'s dimension. */
  function VectorAdd(v: VectorI, p: PositionI): (r: PositionI)
    ensures r.d == p.d && r.Vector() == v.Add(p.Vector())
  {
    FromVector(v.Add(p.Vector()), p.d)
  }

  function VectorSub(v: VectorI, p: PositionI): (r: PositionI)
    ensures r.d == p.d && r.Vector() == v.Sub(p.Vector())
  {
    FromVector(v.Sub(p.Vector()), p.d)
  }

  /** `l + r` between two positions: the sum of their vector parts, a vector with no
      dimension. Added to `l` as a vector, `r`'s part gives the same coordinates, in
      either order. */
  function Sum(l: PositionI, r: PositionI): (v: VectorI)
    ensures FromVector(v, l.d) == l.AddVector(r.Vector())
    ensures FromVector(v, r.d) == r.AddVector(l.Vector())
  {
    ArithmeticLaws(l.Vector(), r.Vector());
    l.Vector().Add(r.Vector())
  }

  /** `l - r` between two positions: the difference of their vector parts. Adding it
      to `r` reaches `l`'s coordinates in `r`'s dimension, and subtracting it from `l`
      reaches `r`'s coordinates in `l`'s dimension. */
  function Diff(l: PositionI, r: PositionI): (v: VectorI)
    ensures r.AddVector(v) == PositionI(l.x, l.y, l.z, r.d)
    ensures l.SubVector(v) == PositionI(r.x, r.y, r.z, l.d)
    ensures v == Splat(0) <==> l.Vector() == r.Vector()
  {
    l.Vector().Sub(r.Vector())
  }

  /** Position equality is value equality; the position-vector comparison ignores the
      dimension. Adding then subtracting a vector returns to the position. */
  lemma PositionLaws(p: PositionI, q: PositionI, v: VectorI)
    ensures p.Equals(q) <==> p == q
    ensures p.EqualsVector(v) <==> p.Vector() == v
    ensures p.AddVector(v).SubVector(v) == p
    ensures VectorAdd(v, p) == p.AddVector(v)
  {
    ArithmeticLaws(p.Vector(), v);
  }

  /** The elements of `s`, each listed once. */
  predicate NoDuplicates(s: seq<PositionI>)
  {
    forall i, j :: 0 <= i < j < |s| ==> s[i] != s[j]
  }

  /** `s` without any occurrence of `p`, the rest in order. */
  function Without(s: seq<PositionI>, p: PositionI): (r: seq<PositionI>)
    ensures forall q :: q in r <==> q in s && q != p
  {
    if |s| == 0 then []
    else (if s[0] == p then [] else [s[0]]) + Without(s[1..], p)
  }

  /** The list `s` after adding each of `items` in turn, each only if absent. */
  function AddAll(s: seq<PositionI>, items: seq<PositionI>): (r: seq<PositionI>)
    ensures |s| <= |r| <= |s| + |items|
    decreases |items|
  {
    if |items| == 0 then s
    else AddAll(if items[0] in s then s else s + [items[0]], items[1..])
  }

  /** Adding a list's items keeps a duplicate-free list duplicate-free, and yields
      exactly the old elements and the items. */
  lemma {:induction false} AddAllProperties(s: seq<PositionI>, items: seq<PositionI>)
    requires NoDuplicates(s)
    ensures NoDuplicates(AddAll(s, items))
    ensures forall q :: q in AddAll(s, items) <==> q in s || q in items
    ensures AddAll(s, items)[..|s|] == s
    decreases |items|
  {
    if |items| > 0 {
      var s' := if items[0] in s then s else s + [items[0]];
      if items[0] !in s {
        SnocNoDuplicates(s, items[0]);
      }
      AddAllProperties(s', items[1..]);
      var r := AddAll(s', items[1..]);
      assert r[..|s|] == r[..|s'|][..|s|] == s'[..|s|] == s;
      assert items == [items[0]] + items[1..];
    }
  }

  /** Removing an element of a duplicate-free list removes its one occurrence. */
  lemma {:induction false} WithoutSplit(s: seq<PositionI>, i: nat)
    requires NoDuplicates(s) && i < |s|
    ensures Without(s, s[i]) == s[..i] + s[i + 1..]
    ensures NoDuplicates(Without(s, s[i]))
  {
    if i == 0 {
      WithoutAbsent(s[1..], s[0]);
      assert s[..0] + s[1..] == s[1..];
    } else {
      WithoutSplit(s[1..], i - 1);
      assert s[1..][i - 1] == s[i];
      assert s[1..][..i - 1] == s[1..i];
      assert s[1..][i..] == s[i + 1..];
      assert s[..i] == [s[0]] + s[1..i];
    }
    WithoutNoDuplicates(s, s[i]);
  }

  lemma {:induction false} WithoutAbsent(s: seq<PositionI>, p: PositionI)
    requires p !in s
    ensures Without(s, p) == s
  {
    if |s| > 0 {
      WithoutAbsent(s[1..], p);
      assert s == [s[0]] + s[1..];
    }
  }

  lemma {:induction false} WithoutNoDuplicates(s: seq<PositionI>, p: PositionI)
    requires NoDuplicates(s)
    ensures NoDuplicates(Without(s, p))
  {
    if |s| > 0 {
      WithoutNoDuplicates(s[1..], p);
      assert s[0] !in s[1..] by {
        forall j | 0 <= j < |s| - 1
          ensures s[1..][j] != s[0]
        {
          assert s[1..][j] == s[j + 1];
        }
      }
      if s[0] != p {
        ConsNoDuplicates(s[0], Without(s[1..], p));
      }
    }
  }

  lemma SnocNoDuplicates(s: seq<PositionI>, a: PositionI)
    requires a !in s && NoDuplicates(s)
    ensures NoDuplicates(s + [a])
  {
  }

  lemma ConsNoDuplicates(a: PositionI, t: seq<PositionI>)
    requires a !in t && NoDuplicates(t)
    ensures NoDuplicates([a] + t)
  {
    var s := [a] + t;
    forall i, j | 0 <= i < j < |s|
      ensures s[i] != s[j]
    {
      assert s[j] == t[j - 1];
      if i > 0 {
        assert s[i] == t[i - 1];
      }
    }
  }

  /** `UpdateList`: a set for membership and a list for order. */
  class UpdateList {
    var updatesSet: set<PositionI>
    var updatesList: seq<PositionI>

    /** The list holds each element of the set exactly once. */
    ghost predicate Valid()
      reads this
    {
      NoDuplicates(updatesList) && forall p :: p in updatesSet <==> p in updatesList
    }

    constructor()
      ensures Valid() && updatesList == []
    {
      updatesSet := {};
      updatesList := [];
    }

    /** `add(pos)`: appended when the set did not hold it, otherwise nothing. */
    method Add(pos: PositionI)
      requires Valid()
      modifies this
      ensures Valid()
      ensures old(pos in updatesSet) ==> updatesList == old(updatesList) && updatesSet == old(updatesSet)
      ensures old(pos !in updatesSet) ==> updatesList == old(updatesList) + [pos]
      ensures updatesSet == old(updatesSet) + {pos}
    {
      if pos !in updatesSet {
        updatesSet := updatesSet + {pos};
        updatesList := updatesList + [pos];
      }
    }

    /** `clear()`. */
    method Clear()
      modifies this
      ensures Valid() && updatesList == [] && updatesSet == {}
    {
      updatesList := [];
      updatesSet := {};
    }

    /** `merge(rt)`: adds `rt`'s positions in `rt`'s list order. */
    method Merge(rt: UpdateList)
      requires Valid() && rt.Valid()
      modifies this
      ensures Valid()
      ensures updatesList == AddAll(old(updatesList), old(rt.updatesList))
    {
      var items := rt.updatesList;
      ghost var start := updatesList;
      for i := 0 to |items|
        invariant Valid()
        invariant AddAll(start, items) == AddAll(updatesList, items[i..])
      {
        assert items[i..][1..] == items[i + 1..];
        Add(items[i]);
      }
      assert items[|items|..] == [];
    }

    /** `remove(pos)`: when the set held `pos`, the list loses its one occurrence,
        the rest keeping their order; otherwise nothing changes. */
    method Remove(pos: PositionI)
      requires Valid()
      modifies this
      ensures Valid()
      ensures updatesList == Without(old(updatesList), pos)
      ensures updatesSet == old(updatesSet) - {pos}
    {
      if pos !in updatesSet {
        WithoutAbsent(updatesList, pos);
        return;
      }
      updatesSet := updatesSet - {pos};
      var i := 0;
      assert updatesList[i..] == updatesList;
      // erase the first list entry equal to `pos`
      while updatesList[i] != pos
        invariant 0 <= i < |updatesList| && pos in updatesList[i..]
        decreases |updatesList| - i
      {
        assert updatesList[i..] == [updatesList[i]] + updatesList[i + 1..];
        i := i + 1;
      }
      WithoutSplit(updatesList, i);
      updatesList := updatesList[..i] + updatesList[i + 1..];
    }

    /** `empty()`. */
    function IsEmpty(): (r: bool)
      requires Valid()
      reads this
      ensures r <==> updatesSet == {}
    {
      assert updatesList != [] ==> updatesList[0] in updatesSet;
      updatesList == []
    }
  }
}
