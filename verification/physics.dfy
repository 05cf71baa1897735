/** The bookkeeping of physics.h: the world's two variable sets selected by a flipping
    index, the objects' double-buffered state with the running mean of the proposed new
    states, the box overlap and support tests, the collision response of
    `adjustPosition` and the equality and hash of collision events. `float` and
    `double` are modelled as `real`. */
module Physics {
  import opened Geometry
  import opened Dimensions

  /** `eps` of util.h. */
  const Eps: real := 0.0001

  /** `PhysicsWorld::distanceEPS`, `10 * eps`. */
  const DistanceEps: real := 10.0 * Eps

  /** `gravityVector` of vector.h. */
  const Gravity := VectorF(0.0, -9.8, 0.0)

  // ---------------------------------------------------------------------------
  // Vector helpers (vector.h, position.h)

  /** `a - b`. */
  function Sub(a: VectorF, b: VectorF): VectorF
  {
    VectorF(a.x - b.x, a.y - b.y, a.z - b.z)
  }

  /** `v / k`: every component divided by `k`. */
  function Divide(v: VectorF, k: real): VectorF
    requires k != 0.0
  {
    VectorF(v.x / k, v.y / k, v.z / k)
  }

  function Dot(a: VectorF, b: VectorF): real
  {
    a.x * b.x + a.y * b.y + a.z * b.z
  }

  function Abs(v: real): real
  {
    if v < 0.0 then -v else v
  }

  /** `sgn` of util.h on a `float`. */
  function Sgn(v: real): (r: real)
    ensures r == -1.0 || r == 0.0 || r == 1.0
    ensures r * r == (if v == 0.0 then 0.0 else 1.0)
  {
    if v < 0.0 then -1.0 else if v > 0.0 then 1.0 else 0.0
  }

  /** The sum of a list of vectors. */
  function Sum(vs: seq<VectorF>): VectorF
  {
    if |vs| == 0 then VectorF(0.0, 0.0, 0.0) else Sum(vs[..|vs| - 1]).Add(vs[|vs| - 1])
  }

  /** The arithmetic mean of a non-empty list of vectors. */
  function Mean(vs: seq<VectorF>): VectorF
    requires |vs| > 0
  {
    Divide(Sum(vs), |vs| as real)
  }

  /** One step of `setNewState`'s running mean: when `slot` is the mean of `vs` (or
      `vs` is empty), `(q + slot * |vs|) / (|vs| + 1)` is the mean of `vs + [q]`. */
  lemma RunningMean(vs: seq<VectorF>, slot: VectorF, q: VectorF)
    requires |vs| > 0 ==> slot == Mean(vs)
    ensures Divide(q.Add(slot.Scale(|vs| as real)), (|vs| + 1) as real) == Mean(vs + [q])
  {
    var n := |vs| as real;
    assert (vs + [q])[..|vs|] == vs;
    var s := Sum(vs);
    assert Sum(vs + [q]) == s.Add(q);
    MeanStep(s.x, n, slot.x, q.x);
    MeanStep(s.y, n, slot.y, q.y);
    MeanStep(s.z, n, slot.z, q.z);
  }

  lemma MeanStep(s: real, n: real, slot: real, q: real)
    requires n >= 0.0 && (n > 0.0 ==> slot == s / n) && (n == 0.0 ==> s == 0.0)
    ensures (q + slot * n) / (n + 1.0) == (s + q) / (n + 1.0)
  {
    if n > 0.0 {
      assert slot * n == s;
    }
  }

  // ---------------------------------------------------------------------------
  // The world

  /** `(variableSetIndex != 0 ? 0 : 1)`. */
  function Toggled(i: int): (j: int)
    ensures j == 0 || j == 1
  {
    if i != 0 then 0 else 1
  }

  /** Swapping moves between the two sets, each slot index becoming the other. */
  lemma ToggleLaws(i: int)
    requires i == 0 || i == 1
    ensures Toggled(i) == 1 - i && Toggled(Toggled(i)) == i
  {
  }

  class PhysicsWorld {
    var currentTime: real
    var variableSetIndex: int
    /** `objects` and the keys of `changedObjects`. */
    var objects: set<PhysicsObject>
    var changedObjects: set<PhysicsObject>

    /** The index selects one of the two variable sets. */
    ghost predicate Valid()
      reads this
    {
      variableSetIndex == 0 || variableSetIndex == 1
    }

    constructor()
      ensures Valid() && currentTime == 0.0 && variableSetIndex == 0
      ensures objects == {} && changedObjects == {}
    {
      currentTime := 0.0;
      variableSetIndex := 0;
      objects, changedObjects := {}, {};
    }

    /** `getOldVariableSetIndex()`: the set holding the committed state. */
    function OldIndex(): (i: int)
      reads this
      ensures Valid() ==> 0 <= i < 2
    {
      variableSetIndex
    }

    /** `getNewVariableSetIndex()`: the other set, where new states are proposed. */
    function NewIndex(): (i: int)
      reads this
      ensures Valid() ==> 0 <= i < 2 && i != OldIndex()
    {
      1 - variableSetIndex
    }

    /** `swapVariableSetIndex()`: the new set becomes the old one. */
    method SwapVariableSetIndex()
      modifies this
      ensures Valid() && variableSetIndex == Toggled(old(variableSetIndex))
      ensures old(Valid()) ==> OldIndex() == old(NewIndex()) && NewIndex() == old(OldIndex())
      ensures currentTime == old(currentTime) && objects == old(objects) && changedObjects == old(changedObjects)
    {
      variableSetIndex := if variableSetIndex != 0 then 0 else 1;
    }
  }

  // ---------------------------------------------------------------------------
  // Box tests

  /** The six guards of `collides` on two boxes centred at `l` and `r` with half-sizes
      `le` and `re`. */
  predicate BoxesCollide(l: PositionF, le: VectorF, r: PositionF, re: VectorF)
  {
    if l.d != r.d then false
    else if l.v.x - le.x - DistanceEps > r.v.x + re.x then false
    else if r.v.x - re.x - DistanceEps > l.v.x + le.x then false
    else if l.v.y - le.y - DistanceEps > r.v.y + re.y then false
    else if r.v.y - re.y - DistanceEps > l.v.y + le.y then false
    else if l.v.z - le.z - DistanceEps > r.v.z + re.z then false
    else if r.v.z - re.z - DistanceEps > l.v.z + le.z then false
    else true
  }

  /** Two boxes collide exactly when they are in one dimension and on every axis the
      distance between their centres is at most the sum of their half-sizes plus
      `distanceEPS`; the test is symmetric. */
  lemma BoxesCollideSpec(l: PositionF, le: VectorF, r: PositionF, re: VectorF)
    ensures BoxesCollide(l, le, r, re) <==>
      l.d == r.d && Abs(l.v.x - r.v.x) <= le.x + re.x + DistanceEps
      && Abs(l.v.y - r.v.y) <= le.y + re.y + DistanceEps && Abs(l.v.z - r.v.z) <= le.z + re.z + DistanceEps
    ensures BoxesCollide(l, le, r, re) == BoxesCollide(r, re, l, le)
  {
  }

  /** The guards of `isSupportedBy` after the static and supported tests, on the
      positions and velocities of the two objects: same dimension, overlapping on x and
      z, `a` above `b` by at most the half-sizes plus `4 * distanceEPS`, and not moving
      up faster than `b` by `distanceEPS` or more. */
  predicate RestsOn(aPosition: PositionF, aVelocity: VectorF, bPosition: PositionF, bVelocity: VectorF, extentsSum: VectorF)
  {
    if aPosition.d != bPosition.d then false
    else
      var delta := Sub(aPosition.v, bPosition.v);
      if delta.x + DistanceEps > -extentsSum.x && delta.x - DistanceEps < extentsSum.x
         && delta.z + DistanceEps > -extentsSum.z && delta.z - DistanceEps < extentsSum.z then
        if delta.y > 0.0 then
          if delta.y < DistanceEps * 4.0 + extentsSum.y then
            aVelocity.y - DistanceEps < bVelocity.y
          else false
        else false
      else false
  }

  /** A resting object is in the supporter's dimension, strictly above it, within the
      supporter's reach on x and z, and at most its half-sizes plus `4 * distanceEPS`
      higher. */
  lemma RestsOnSpec(aPosition: PositionF, aVelocity: VectorF, bPosition: PositionF, bVelocity: VectorF, extentsSum: VectorF)
    ensures RestsOn(aPosition, aVelocity, bPosition, bVelocity, extentsSum) <==>
      aPosition.d == bPosition.d
      && Abs(aPosition.v.x - bPosition.v.x) < extentsSum.x + DistanceEps
      && Abs(aPosition.v.z - bPosition.v.z) < extentsSum.z + DistanceEps
      && 0.0 < aPosition.v.y - bPosition.v.y < extentsSum.y + 4.0 * DistanceEps
      && aVelocity.y < bVelocity.y + DistanceEps
  {
  }

  // ---------------------------------------------------------------------------
  // Collision response

  /** The position and velocity `adjustPosition` proposes for an object `a` at
      `aPosition` with `aVelocity` that touches `rt`: `a` is pushed out along the axis
      of least overlap, by the whole overlap when `rt` is static (on the y axis also
      when `rt` is supported) and by half of it otherwise, and an approaching relative
      velocity along that axis is reflected with factor 1.5 (scaled the same way). */
  function Response(aPosition: PositionF, aVelocity: VectorF, bPosition: PositionF, bVelocity: VectorF,
                    aExtents: VectorF, bExtents: VectorF, rtStatic: bool, rtSupported: bool): (r: (PositionF, VectorF))
    ensures r.0.d == aPosition.d
    ensures || (r.0.v.y == aPosition.v.y && r.0.v.z == aPosition.v.z && r.1.y == aVelocity.y && r.1.z == aVelocity.z)
            || (r.0.v.x == aPosition.v.x && r.0.v.z == aPosition.v.z && r.1.x == aVelocity.x && r.1.z == aVelocity.z)
            || (r.0.v.x == aPosition.v.x && r.0.v.y == aPosition.v.y && r.1.x == aVelocity.x && r.1.y == aVelocity.y)
  {
    var delta := Sub(aPosition.v, bPosition.v);
    var absDelta := VectorF(Abs(delta.x), Abs(delta.y), Abs(delta.z));
    var extentsSum := aExtents.Add(bExtents);
    var offset := Sub(extentsSum, absDelta).Add(VectorF(DistanceEps * 2.0, DistanceEps * 2.0, DistanceEps * 2.0));
    var deltaVelocity := Sub(aVelocity, bVelocity);
    var t := if rtStatic then 1.0 else 0.5;
    var ty := if rtSupported then 1.0 else t;
    var normal := Normal(delta, offset);
    var k := LeastAxis(offset);
    var moved :=
      if k == 0 then aPosition.v.(x := aPosition.v.x + t * normal.x * offset.x)
      else if k == 1 then aPosition.v.(y := aPosition.v.y + ty * normal.y * offset.y)
      else aPosition.v.(z := aPosition.v.z + t * normal.z * offset.z);
    var d := Dot(deltaVelocity, normal);
    var velocity := if d < 0.0 then Sub(aVelocity, normal.Scale(1.5 * d * t)) else aVelocity;
    (PositionF(moved, aPosition.d), velocity)
  }

  /** The unit normal of `adjustPosition`: the sign of the centre difference on the axis
      of least overlap, a zero difference counting as `distanceEPS`. */
  function Normal(delta: VectorF, offset: VectorF): (n: VectorF)
    ensures Dot(n, n) == 1.0
  {
    var k := LeastAxis(offset);
    var d := if k == 0 then delta.x else if k == 1 then delta.y else delta.z;
    UnitAxis(Sgn(NonZero(d)), k)
  }

  /** The axis `adjustPosition` pushes along: x when its overlap is the least, else y
      when its overlap is less than z's, else z. */
  function LeastAxis(offset: VectorF): (k: int)
    ensures 0 <= k < 3
  {
    if offset.x < offset.y && offset.x < offset.z then 0 else if offset.y < offset.z then 1 else 2
  }

  /** A zero component of the centre difference counts as `distanceEPS`. */
  function NonZero(d: real): (r: real)
    ensures r != 0.0
  {
    if d == 0.0 then DistanceEps else d
  }

  /** `s` on axis `k` (x, y or z), zero on the other two. */
  function UnitAxis(s: real, k: int): (n: VectorF)
    requires 0 <= k < 3
    ensures Dot(n, n) == s * s
  {
    if k == 0 then VectorF(s, 0.0, 0.0) else if k == 1 then VectorF(0.0, s, 0.0) else VectorF(0.0, 0.0, s)
  }

  /** The response moves the object along one axis only, in its own dimension, and
      changes its velocity along that axis only. Against a static object it leaves the
      two objects not approaching along that axis. */
  lemma ResponseSpec(aPosition: PositionF, aVelocity: VectorF, bPosition: PositionF, bVelocity: VectorF,
                     aExtents: VectorF, bExtents: VectorF, rtStatic: bool, rtSupported: bool)
    ensures var (p, v) := Response(aPosition, aVelocity, bPosition, bVelocity, aExtents, bExtents, rtStatic, rtSupported);
      p.d == aPosition.d
      && ((p.v.y == aPosition.v.y && p.v.z == aPosition.v.z && v.y == aVelocity.y && v.z == aVelocity.z)
          || (p.v.x == aPosition.v.x && p.v.z == aPosition.v.z && v.x == aVelocity.x && v.z == aVelocity.z)
          || (p.v.x == aPosition.v.x && p.v.y == aPosition.v.y && v.x == aVelocity.x && v.y == aVelocity.y))
    ensures var (p, v) := Response(aPosition, aVelocity, bPosition, bVelocity, aExtents, bExtents, rtStatic, rtSupported);
      var delta := Sub(aPosition.v, bPosition.v);
      var offset := Sub(aExtents.Add(bExtents), VectorF(Abs(delta.x), Abs(delta.y), Abs(delta.z)))
        .Add(VectorF(DistanceEps * 2.0, DistanceEps * 2.0, DistanceEps * 2.0));
      rtStatic ==> Dot(Sub(v, bVelocity), Normal(delta, offset)) >= 0.0
  {
    var delta := Sub(aPosition.v, bPosition.v);
    var offset := Sub(aExtents.Add(bExtents), VectorF(Abs(delta.x), Abs(delta.y), Abs(delta.z)))
      .Add(VectorF(DistanceEps * 2.0, DistanceEps * 2.0, DistanceEps * 2.0));
    var n := Normal(delta, offset);
    var dv := Sub(aVelocity, bVelocity);
    var d := Dot(dv, n);
    var t := if rtStatic then 1.0 else 0.5;
    if d < 0.0 {
      var v := Sub(aVelocity, n.Scale(1.5 * d * t));
      ReflectedDot(dv, n, 1.5 * d * t);
      assert Sub(v, bVelocity) == Sub(dv, n.Scale(1.5 * d * t));
    }
  }

  /** Subtracting `k` times a unit normal lowers the velocity's normal component by `k`. */
  lemma ReflectedDot(dv: VectorF, n: VectorF, k: real)
    requires Dot(n, n) == 1.0
    ensures Dot(Sub(dv, n.Scale(k)), n) == Dot(dv, n) - k
  {
    calc {
      Dot(Sub(dv, n.Scale(k)), n);
      (dv.x - n.x * k) * n.x + (dv.y - n.y * k) * n.y + (dv.z - n.z * k) * n.z;
      Dot(dv, n) - k * Dot(n, n);
    }
  }

  // ---------------------------------------------------------------------------
  // Objects

  class PhysicsObject {
    /** The two variable sets of the state; the world's index selects one. */
    const position: array<PositionF>
    const velocity: array<VectorF>
    const objectTime: array<real>
    const affectedByGravity: bool
    const isStatic: bool
    var supported: bool
    var destroyed: bool
    const extents: VectorF
    const world: PhysicsWorld
    var latestUpdateTag: nat
    var newStateCount: nat
    /** The states proposed to `setNewState` since the last `setupNewState`. */
    ghost var positionProposals: seq<VectorF>
    ghost var velocityProposals: seq<VectorF>

    ghost predicate Valid()
      reads this, world
    {
      position.Length == 2 && velocity.Length == 2 && objectTime.Length == 2 && world.Valid()
    }

    /** The new set holds the mean of the states proposed since `setupNewState`, and
        the count is the number of proposals. */
    ghost predicate Averaging()
      requires Valid()
      reads this, world, position, velocity
    {
      var i := world.NewIndex();
      newStateCount == |positionProposals| == |velocityProposals|
      && (newStateCount > 0 ==> position[i].v == Mean(positionProposals) && velocity[i] == Mean(velocityProposals))
    }

    /** `PhysicsObject(position, velocity, …, world)`: both sets hold the given state at
        the world's current time. `supported` is left uninitialised by the source and
        is a parameter here. */
    constructor(p: PositionF, v: VectorF, affectedByGravity: bool, isStatic: bool, extents: VectorF,
                world: PhysicsWorld, supported: bool)
      requires world.Valid()
      ensures Valid() && this.world == world && this.extents == extents
      ensures this.affectedByGravity == affectedByGravity && this.isStatic == isStatic && this.supported == supported
      ensures fresh(position) && fresh(velocity) && fresh(objectTime)
      ensures position[..] == [p, p] && velocity[..] == [v, v] && objectTime[..] == [world.currentTime, world.currentTime]
      ensures !destroyed && latestUpdateTag == 0 && newStateCount == 0 && Averaging()
    {
      position := new PositionF[2](_ => p);
      velocity := new VectorF[2](_ => v);
      var now := world.currentTime;
      objectTime := new real[2](_ => now);
      this.affectedByGravity := affectedByGravity;
      this.isStatic := isStatic;
      this.supported := supported;
      destroyed := false;
      this.extents := extents;
      this.world := world;
      latestUpdateTag := 0;
      newStateCount := 0;
      positionProposals, velocityProposals := [], [];
    }

    /** `PhysicsObject::make`: a new object, registered with the world as one of its
        objects and as changed. */
    static method Make(p: PositionF, v: VectorF, affectedByGravity: bool, isStatic: bool, extents: VectorF,
                       world: PhysicsWorld, supported: bool) returns (o: PhysicsObject)
      requires world.Valid()
      modifies world
      ensures fresh(o) && o.Valid() && o.world == world && o.extents == extents
      ensures o.affectedByGravity == affectedByGravity && o.isStatic == isStatic && o.supported == supported
      ensures !o.destroyed && o.latestUpdateTag == 0 && o.newStateCount == 0 && o.Averaging()
      ensures o.position[..] == [p, p] && o.velocity[..] == [v, v] && o.objectTime[..] == [world.currentTime, world.currentTime]
      ensures world.objects == old(world.objects) + {o} && world.changedObjects == old(world.changedObjects) + {o}
      ensures world.currentTime == old(world.currentTime) && world.variableSetIndex == old(world.variableSetIndex)
    {
      o := new PhysicsObject(p, v, affectedByGravity, isStatic, extents, world, supported);
      world.objects := world.objects + {o};
      world.changedObjects := world.changedObjects + {o};
    }

    /** `getPosition()`: the old set's position advanced to the world's time, along the
        velocity, and under gravity when the object is affected by it and unsupported. */
    function GetPosition(): (r: PositionF)
      requires Valid()
      reads this, world, position, velocity, objectTime
      ensures r.d == position[world.OldIndex()].d
    {
      var i := world.OldIndex();
      var dt := world.currentTime - objectTime[i];
      var drift := position[i].AddVector(velocity[i].Scale(dt));
      if affectedByGravity && !supported then drift.AddVector(Gravity.Scale(0.5 * dt * dt)) else drift
    }

    /** `getVelocity()`: the old set's velocity, changed by gravity over the elapsed time
        when the object is affected by it and unsupported. */
    function GetVelocity(): (r: VectorF)
      requires Valid()
      reads this, world, velocity, objectTime
      ensures r.x == velocity[world.OldIndex()].x && r.z == velocity[world.OldIndex()].z
      ensures affectedByGravity && !supported ==>
        r.y == velocity[world.OldIndex()].y - 9.8 * (world.currentTime - objectTime[world.OldIndex()])
      ensures !affectedByGravity || supported ==> r.y == velocity[world.OldIndex()].y
    {
      var i := world.OldIndex();
      if !affectedByGravity || supported then velocity[i]
      else velocity[i].Add(Gravity.Scale(world.currentTime - objectTime[i]))
    }

    /** Gravity only acts along y: the x and z components follow the velocity, and so
        does y for an object without gravity or a supported one. At the object's own
        time the state is the stored one. */
    lemma MotionSpec()
      requires Valid()
      ensures var i, dt := world.OldIndex(), world.currentTime - objectTime[world.OldIndex()];
        GetPosition().v.x == position[i].v.x + velocity[i].x * dt && GetPosition().v.z == position[i].v.z + velocity[i].z * dt
        && GetVelocity().x == velocity[i].x && GetVelocity().z == velocity[i].z
        && (!affectedByGravity || supported ==> GetPosition().v.y == position[i].v.y + velocity[i].y * dt && GetVelocity().y == velocity[i].y)
        && (affectedByGravity && !supported ==>
              GetPosition().v.y == position[i].v.y + velocity[i].y * dt - 4.9 * dt * dt && GetVelocity().y == velocity[i].y - 9.8 * dt)
    ensures world.currentTime == objectTime[world.OldIndex()] ==>
        GetPosition() == position[world.OldIndex()] && GetVelocity() == velocity[world.OldIndex()]
    {
      var i, dt := world.OldIndex(), world.currentTime - objectTime[world.OldIndex()];
      assert Gravity.Scale(0.5 * dt * dt).y == -4.9 * dt * dt;
    }

    /** `setupNewState()`: the old set copied into the new one, with no proposals yet. */
    method SetupNewState()
      requires Valid()
      modifies this, position, velocity, objectTime
      ensures Valid() && Averaging() && newStateCount == 0
      ensures var o, n := world.OldIndex(), world.NewIndex();
        position[n] == position[o] == old(position[o]) && velocity[n] == velocity[o] == old(velocity[o])
        && objectTime[n] == objectTime[o] == old(objectTime[o])
      ensures latestUpdateTag == old(latestUpdateTag) && supported == old(supported) && destroyed == old(destroyed)
    {
      var o, n := world.OldIndex(), world.NewIndex();
      objectTime[n] := objectTime[o];
      position[n] := position[o];
      velocity[n] := velocity[o];
      newStateCount := 0;
      positionProposals, velocityProposals := [], [];
    }

    /** `setNewState(newPosition, newVelocity)`: the new set becomes the mean of all
        states proposed since `setupNewState`, in the dimension of this proposal, at the
        world's time; the object is marked changed and its update tag advances. The old
        set, and so `getPosition()` and `getVelocity()`, are untouched. */
    method SetNewState(newPosition: PositionF, newVelocity: VectorF)
      requires Valid() && Averaging()
      modifies this, position, velocity, objectTime, world
      ensures Valid() && Averaging()
      ensures positionProposals == old(positionProposals) + [newPosition.v]
      ensures velocityProposals == old(velocityProposals) + [newVelocity]
      ensures newStateCount == old(newStateCount) + 1 && latestUpdateTag == old(latestUpdateTag) + 1
      ensures position[world.NewIndex()].d == newPosition.d && objectTime[world.NewIndex()] == world.currentTime
      ensures position[world.OldIndex()] == old(position[world.OldIndex()])
      ensures velocity[world.OldIndex()] == old(velocity[world.OldIndex()])
      ensures objectTime[world.OldIndex()] == old(objectTime[world.OldIndex()])
      ensures GetPosition() == old(GetPosition()) && GetVelocity() == old(GetVelocity())
      ensures world.changedObjects == old(world.changedObjects) + {this}
      ensures world.objects == old(world.objects) && world.currentTime == old(world.currentTime)
      ensures world.variableSetIndex == old(world.variableSetIndex)
      ensures supported == old(supported) && destroyed == old(destroyed)
    {
      var i := world.NewIndex();
      objectTime[i] := world.currentTime;
      Average(i, newPosition, newVelocity);
      world.changedObjects := world.changedObjects + {this};
      latestUpdateTag := latestUpdateTag + 1;
    }

    /** The running mean of `setNewState` in set `i`: the stored state weighted by the
        count of earlier proposals, plus the new one, over the new count. */
    method Average(i: int, newPosition: PositionF, newVelocity: VectorF)
      requires Valid() && Averaging() && i == world.NewIndex()
      modifies this, position, velocity
      ensures Valid() && Averaging()
      ensures positionProposals == old(positionProposals) + [newPosition.v]
      ensures velocityProposals == old(velocityProposals) + [newVelocity]
      ensures newStateCount == old(newStateCount) + 1 && latestUpdateTag == old(latestUpdateTag)
      ensures position[i].d == newPosition.d
      ensures position[1 - i] == old(position[1 - i]) && velocity[1 - i] == old(velocity[1 - i])
      ensures supported == old(supported) && destroyed == old(destroyed)
    {
      var n := newStateCount;
      RunningMean(positionProposals, position[i].v, newPosition.v);
      RunningMean(velocityProposals, velocity[i], newVelocity);
      var p := newPosition.v.Add(position[i].v.Scale(n as real));
      var v := newVelocity.Add(velocity[i].Scale(n as real));
      newStateCount := n + 1;
      p := Divide(p, newStateCount as real);
      v := Divide(v, newStateCount as real);
      position[i] := PositionF(p, newPosition.d);
      velocity[i] := v;
      positionProposals := positionProposals + [newPosition.v];
      velocityProposals := velocityProposals + [newVelocity];
    }

    /** `destroy()`: marks the object destroyed and changes nothing else. */
    method Destroy()
      modifies this
      ensures destroyed && supported == old(supported)
      ensures latestUpdateTag == old(latestUpdateTag) && newStateCount == old(newStateCount)
      ensures positionProposals == old(positionProposals) && velocityProposals == old(velocityProposals)
      ensures old(Valid()) ==> Valid()
      ensures old(Valid()) && old(Averaging()) ==> Averaging()
    {
      destroyed := true;
    }

    /** `collides(rt)`: the boxes at the two current positions overlap. */
    predicate Collides(rt: PhysicsObject)
      requires Valid() && rt.Valid() && world == rt.world
      reads this, world, position, velocity, objectTime, rt, rt.position, rt.velocity, rt.objectTime
      ensures Collides(rt) ==> GetPosition().d == rt.GetPosition().d
      ensures Collides(rt) ==>
        && Abs(GetPosition().v.x - rt.GetPosition().v.x) <= extents.x + rt.extents.x + DistanceEps
        && Abs(GetPosition().v.y - rt.GetPosition().v.y) <= extents.y + rt.extents.y + DistanceEps
        && Abs(GetPosition().v.z - rt.GetPosition().v.z) <= extents.z + rt.extents.z + DistanceEps
    {
      BoxesCollideSpec(GetPosition(), extents, rt.GetPosition(), rt.extents);
      BoxesCollide(GetPosition(), extents, rt.GetPosition(), rt.extents)
    }

    /** `isSupportedBy(rt)`: a static object always is; otherwise only by a supported or
        static object it rests on. */
    predicate IsSupportedBy(rt: PhysicsObject)
      requires Valid() && rt.Valid()
      reads this, world, position, velocity, objectTime, rt, rt.world, rt.position, rt.velocity, rt.objectTime
      ensures isStatic ==> IsSupportedBy(rt)
      ensures IsSupportedBy(rt) && !isStatic ==>
        && (rt.supported || rt.isStatic) && GetPosition().d == rt.GetPosition().d
        && GetPosition().v.y > rt.GetPosition().v.y
    {
      if isStatic then true
      else if !rt.supported && !rt.isStatic then false
      else RestsOn(GetPosition(), GetVelocity(), rt.GetPosition(), rt.GetVelocity(), extents.Add(rt.extents))
    }

    /** `adjustPosition(rt)`: nothing for a static object; otherwise the response to
        `rt` is proposed as a new state. Either way the world's index, time and objects,
        the old set, and so `getPosition()` and `getVelocity()`, are untouched. */
    method AdjustPosition(rt: PhysicsObject)
      requires Valid() && rt.Valid() && Averaging()
      modifies this, position, velocity, objectTime, world
      ensures Valid() && Averaging()
      ensures isStatic ==> unchanged(this, position, velocity, objectTime, world)
      ensures !isStatic ==>
        var (p, v) := old(Response(GetPosition(), GetVelocity(), rt.GetPosition(), rt.GetVelocity(), extents, rt.extents, rt.isStatic, rt.supported));
        positionProposals == old(positionProposals) + [p.v] && velocityProposals == old(velocityProposals) + [v]
        && newStateCount == old(newStateCount) + 1 && latestUpdateTag == old(latestUpdateTag) + 1
        && position[world.NewIndex()].d == p.d && objectTime[world.NewIndex()] == world.currentTime
      ensures !isStatic ==> world.changedObjects == old(world.changedObjects) + {this}
      ensures world.objects == old(world.objects) && world.currentTime == old(world.currentTime)
      ensures world.variableSetIndex == old(world.variableSetIndex)
      ensures position[world.OldIndex()] == old(position[world.OldIndex()])
      ensures velocity[world.OldIndex()] == old(velocity[world.OldIndex()])
      ensures objectTime[world.OldIndex()] == old(objectTime[world.OldIndex()])
      ensures GetPosition() == old(GetPosition()) && GetVelocity() == old(GetVelocity())
      ensures supported == old(supported) && destroyed == old(destroyed)
    {
      if isStatic {
        return;
      }
      var response := Response(GetPosition(), GetVelocity(), rt.GetPosition(), rt.GetVelocity(), extents, rt.extents, rt.isStatic, rt.supported);
      SetNewState(response.0, response.1);
    }
  }

  /** Collision tests are symmetric and never cross dimensions; a static object is
      supported by anything, and nothing else is supported by an object that is
      neither static nor supported. */
  lemma ObjectTests(a: PhysicsObject, b: PhysicsObject)
    requires a.Valid() && b.Valid() && a.world == b.world
    ensures a.Collides(b) == b.Collides(a)
    ensures a.GetPosition().d != b.GetPosition().d ==> !a.Collides(b) && (!a.isStatic ==> !a.IsSupportedBy(b))
    ensures a.isStatic ==> a.IsSupportedBy(b)
    ensures !a.isStatic && !b.isStatic && !b.supported ==> !a.IsSupportedBy(b)
  {
    BoxesCollideSpec(a.GetPosition(), a.extents, b.GetPosition(), b.extents);
  }

  // ---------------------------------------------------------------------------
  // Collision events

  /** `CollisionEvent`: a time, the two objects (as their weak pointers lock to) and the
      update tags they had when the event was computed. */
  datatype CollisionEvent = CollisionEvent(collisionTime: real, a: PhysicsObject?, b: PhysicsObject?, aTag: nat, bTag: nat)
  {
    /** `operator ==`: equal times, and the same objects with the same tags, in either
        order. */
    predicate Equals(rt: CollisionEvent)
      ensures Equals(rt) ==> collisionTime == rt.collisionTime
      ensures Equals(rt) ==> multiset{aTag, bTag} == multiset{rt.aTag, rt.bTag} && multiset{a, b} == multiset{rt.a, rt.b}
      ensures this == rt ==> Equals(rt)
    {
      if collisionTime != rt.collisionTime then false
      else if aTag == rt.aTag && a == rt.a && bTag == rt.bTag && b == rt.b then true
      else if aTag == rt.bTag && a == rt.b && bTag == rt.aTag && b == rt.a then true
      else false
    }

    /** The event with its two objects exchanged. */
    function Swapped(): CollisionEvent
    {
      CollisionEvent(collisionTime, b, a, bTag, aTag)
    }

    /** `CollisionEventHash`: the time's hash plus both tags, as a 64-bit `size_t`;
        `timeHash` stands for `hash<double>`. */
    function Hash(timeHash: real -> nat): (h: nat)
      ensures h < 0x1_0000_0000_0000_0000
    {
      (timeHash(collisionTime) + aTag + bTag) % 0x1_0000_0000_0000_0000
    }
  }

  /** `CollisionEvent(t, a, b)`: the objects' current update tags are recorded. */
  function NewEvent(t: real, a: PhysicsObject, b: PhysicsObject): (e: CollisionEvent)
    reads a, b
    ensures e.Equals(e) && e.aTag == a.latestUpdateTag && e.bTag == b.latestUpdateTag
  {
    CollisionEvent(t, a, b, a.latestUpdateTag, b.latestUpdateTag)
  }

  /** Event equality is an equivalence that needs equal times and ignores the order of
      the two objects, and equal events hash alike. */
  lemma EventEquality(x: CollisionEvent, y: CollisionEvent, z: CollisionEvent, timeHash: real -> nat)
    ensures x.Equals(x) && x.Equals(x.Swapped())
    ensures x.Equals(y) <==> y.Equals(x)
    ensures x.Equals(y) && y.Equals(z) ==> x.Equals(z)
    ensures x.Equals(y) ==> x.collisionTime == y.collisionTime && x.Hash(timeHash) == y.Hash(timeHash)
    ensures x.Equals(y) <==> x == y || x == y.Swapped()
  {
  }
}
