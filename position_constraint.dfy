/**
 * The two-body distance constraint of CSC8503CoreClasses/PositionConstraint.cpp.
 *
 * `Solve` is the closed form of one `UpdateConstraint(dt)` step: from the two
 * bodies' positions, velocities and inverse masses it yields either no impulse
 * or the impulse pair the step applies. The classes below mirror the objects
 * the constraint works on, and `PositionConstraint.UpdateConstraint` is
 * proved to apply exactly the pair `Solve` gives. `Vector::Length` and
 * `Vector::Normalise` (square roots) are parameters; `Vector::Dot` is exact.
 */
module PositionConstraints {
  import opened Maths

  /** `Vector::Length` */
  type LengthFn = Vec3 -> real

  /** `Vector::Normalise` */
  type NormaliseFn = Vec3 -> Vec3

  /** The Baumgarte stabilisation factor `biasFactor`. */
  const BiasFactor: real := 0.01

  /** What one step does: nothing, or impulse `onA` on body A and `onB` on body B. */
  datatype Outcome = NoImpulse | Impulses(onA: Vec3, onB: Vec3)

  /** The part of a constrained body the step reads. */
  datatype Body = Body(position: Vec3, linearVelocity: Vec3, inverseMass: real)

  /** `distance - currentDistance`: positive when the bodies are too close, negative when too far apart. */
  function Offset(length: LengthFn, distance: real, a: Body, b: Body): (offset: real)
    ensures offset > 0.0 <==> length(Sub(a.position, b.position)) < distance
    ensures offset < 0.0 <==> length(Sub(a.position, b.position)) > distance
  {
    distance - length(Sub(a.position, b.position))
  }

  /** The separation direction `Normalise(posA - posB)`. */
  function Direction(normalise: NormaliseFn, a: Body, b: Body): Vec3 {
    normalise(Sub(a.position, b.position))
  }

  /**
   * The relative velocity of A with respect to B along a direction: A's
   * speed along it minus B's, zero for equal velocities.
   */
  function VelocityAlong(va: Vec3, vb: Vec3, dir: Vec3): (v: real)
    ensures v == Dot(va, dir) - Dot(vb, dir)
    ensures va == vb ==> v == 0.0
  {
    Dot(Sub(va, vb), dir)
  }

  /**
   * The Baumgarte term `bias = -(biasFactor / dt) * offset`: it has the
   * opposite sign of the offset and vanishes only with it.
   */
  function Bias(offset: real, dt: real): (bias: real)
    requires dt > 0.0
    ensures offset > 0.0 ==> bias < 0.0
    ensures offset < 0.0 ==> bias > 0.0
    ensures offset == 0.0 <==> bias == 0.0
  {
    var k := BiasFactor / dt;
    assert k > 0.0;
    SignOfProduct(offset, k);
    -k * offset
  }

  /** The Lagrange multiplier `lambda = -(velocityDot + bias) / constraintMass`. */
  function Multiplier(velocityDot: real, bias: real, constraintMass: real): (lambda: real)
    requires constraintMass > 0.0
    ensures lambda * constraintMass == -(velocityDot + bias)
  {
    -(velocityDot + bias) / constraintMass
  }

  /**
   * One `UpdateConstraint(dt)`: no impulse when the offset is exactly zero or
   * the summed inverse mass is not positive; otherwise impulses along the
   * separation direction scaled by the Lagrange multiplier `lambda`, equal and
   * opposite on the two bodies.
   */
  function Solve(length: LengthFn, normalise: NormaliseFn, distance: real, a: Body, b: Body, dt: real): (r: Outcome)
    requires dt > 0.0
    ensures r.NoImpulse? <==> Offset(length, distance, a, b) == 0.0 || a.inverseMass + b.inverseMass <= 0.0
    ensures r.Impulses? ==> r.onB == Neg(r.onA) && Add(r.onA, r.onB) == Zero3
  {
    var relativePos := Sub(a.position, b.position);
    var offset := distance - length(relativePos);
    if !(Abs(offset) > 0.0) then NoImpulse
    else
      var offsetDir := normalise(relativePos);
      var relativeVelocity := Sub(a.linearVelocity, b.linearVelocity);
      var constraintMass := a.inverseMass + b.inverseMass;
      if !(constraintMass > 0.0) then NoImpulse
      else
        var velocityDot := Dot(relativeVelocity, offsetDir);
        var bias := Bias(offset, dt);
        var lambda := Multiplier(velocityDot, bias, constraintMass);
        Impulses(Scale(offsetDir, lambda), Scale(Neg(offsetDir), lambda))
  }

  /** Two immovable bodies (zero inverse mass) are never pushed, whatever the offset. */
  lemma StaticPairUntouched(length: LengthFn, normalise: NormaliseFn, distance: real, a: Body, b: Body, dt: real)
    requires dt > 0.0 && a.inverseMass == 0.0 && b.inverseMass == 0.0
    ensures Solve(length, normalise, distance, a, b, dt) == NoImpulse
  {
  }

  /**
   * When an impulse is applied it lies along the separation direction, A's
   * impulse is `dir * lambda` and B's its negation, with `lambda` the
   * multiplier of the relative velocity along `dir`, the bias of the offset
   * and the summed inverse mass.
   */
  lemma ImpulseFormula(length: LengthFn, normalise: NormaliseFn, distance: real, a: Body, b: Body, dt: real)
    requires dt > 0.0
    requires Offset(length, distance, a, b) != 0.0 && a.inverseMass + b.inverseMass > 0.0
    ensures var dir := Direction(normalise, a, b);
      var lambda := Multiplier(VelocityAlong(a.linearVelocity, b.linearVelocity, dir),
                               Bias(Offset(length, distance, a, b), dt), a.inverseMass + b.inverseMass);
      Solve(length, normalise, distance, a, b, dt) == Impulses(Scale(dir, lambda), Neg(Scale(dir, lambda)))
  {
  }

  /**
   * The multiplier is chosen so that, once each body's velocity takes its
   * impulse times its inverse mass, the relative velocity along a unit
   * separation direction is exactly the Baumgarte target `(0.01 / dt) * offset`.
   */
  lemma ResolvesRelativeVelocity(length: LengthFn, normalise: NormaliseFn, distance: real, a: Body, b: Body, dt: real)
    requires dt > 0.0
    requires Solve(length, normalise, distance, a, b, dt).Impulses?
    requires var dir := Direction(normalise, a, b); Dot(dir, dir) == 1.0
    ensures var r := Solve(length, normalise, distance, a, b, dt);
      var va := Add(a.linearVelocity, Scale(r.onA, a.inverseMass));
      var vb := Add(b.linearVelocity, Scale(r.onB, b.inverseMass));
      VelocityAlong(va, vb, Direction(normalise, a, b)) == (BiasFactor / dt) * Offset(length, distance, a, b)
  {
    var dir := Direction(normalise, a, b);
    var m := a.inverseMass + b.inverseMass;
    var vd := VelocityAlong(a.linearVelocity, b.linearVelocity, dir);
    var bias := Bias(Offset(length, distance, a, b), dt);
    var lambda := Multiplier(vd, bias, m);
    ImpulseFormula(length, normalise, distance, a, b, dt);
    DotAfterImpulses(a.linearVelocity, b.linearVelocity, dir, lambda, a.inverseMass, b.inverseMass);
    calc {
      VelocityAlong(Add(a.linearVelocity, Scale(Scale(dir, lambda), a.inverseMass)),
                    Add(b.linearVelocity, Scale(Neg(Scale(dir, lambda)), b.inverseMass)), dir);
      vd + lambda * m * Dot(dir, dir);
      vd + lambda * m;
      -bias;
    }
  }

  /** Dot product bookkeeping for `ResolvesRelativeVelocity`. */
  lemma DotAfterImpulses(va: Vec3, vb: Vec3, dir: Vec3, lambda: real, ia: real, ib: real)
    ensures VelocityAlong(Add(va, Scale(Scale(dir, lambda), ia)), Add(vb, Scale(Neg(Scale(dir, lambda)), ib)), dir)
         == VelocityAlong(va, vb, dir) + lambda * (ia + ib) * Dot(dir, dir)
  {
    AxisAfterImpulses(va.x, vb.x, dir.x, lambda, ia, ib);
    AxisAfterImpulses(va.y, vb.y, dir.y, lambda, ia, ib);
    AxisAfterImpulses(va.z, vb.z, dir.z, lambda, ia, ib);
    calc {
      VelocityAlong(Add(va, Scale(Scale(dir, lambda), ia)), Add(vb, Scale(Neg(Scale(dir, lambda)), ib)), dir);
      (va.x + dir.x * lambda * ia - (vb.x + -(dir.x * lambda) * ib)) * dir.x
      + (va.y + dir.y * lambda * ia - (vb.y + -(dir.y * lambda) * ib)) * dir.y
      + (va.z + dir.z * lambda * ia - (vb.z + -(dir.z * lambda) * ib)) * dir.z;
      (va.x - vb.x) * dir.x + (va.y - vb.y) * dir.y + (va.z - vb.z) * dir.z
      + (lambda * (ia + ib) * (dir.x * dir.x) + lambda * (ia + ib) * (dir.y * dir.y) + lambda * (ia + ib) * (dir.z * dir.z));
      { Distribute(lambda * (ia + ib), dir.x * dir.x, dir.y * dir.y, dir.z * dir.z); }
      Dot(Sub(va, vb), dir) + lambda * (ia + ib) * (dir.x * dir.x + dir.y * dir.y + dir.z * dir.z);
    }
  }

  lemma Distribute(k: real, a: real, b: real, c: real)
    ensures k * a + k * b + k * c == k * (a + b + c)
  {
  }

  /** One coordinate of `DotAfterImpulses`. */
  lemma AxisAfterImpulses(a: real, b: real, d: real, lambda: real, ia: real, ib: real)
    ensures (a + d * lambda * ia - (b + -(d * lambda) * ib)) * d == (a - b) * d + lambda * (ia + ib) * (d * d)
  {
  }

  /**
   * The link is two-sided: with no relative velocity along a non-degenerate
   * direction, bodies that are too close (positive offset) are pushed apart
   * and bodies that are too far apart (negative offset) are pulled together.
   */
  lemma ReactsToBothSigns(length: LengthFn, normalise: NormaliseFn, distance: real, a: Body, b: Body, dt: real)
    requires dt > 0.0 && a.inverseMass + b.inverseMass > 0.0
    requires var dir := Direction(normalise, a, b);
      Dot(dir, dir) > 0.0 && VelocityAlong(a.linearVelocity, b.linearVelocity, dir) == 0.0
    ensures var r := Solve(length, normalise, distance, a, b, dt);
      var offset := Offset(length, distance, a, b);
      && (r.Impulses? <==> offset != 0.0)
      && (r.Impulses? ==> (Dot(r.onA, Direction(normalise, a, b)) > 0.0 <==> offset > 0.0))
      && (r.Impulses? ==> (Dot(r.onA, Direction(normalise, a, b)) < 0.0 <==> offset < 0.0))
  {
    var dir := Direction(normalise, a, b);
    var offset := Offset(length, distance, a, b);
    var m := a.inverseMass + b.inverseMass;
    if offset != 0.0 {
      ImpulseFormula(length, normalise, distance, a, b, dt);
      var lambda := Multiplier(0.0, Bias(offset, dt), m);
      assert lambda * m == (BiasFactor / dt) * offset;
      assert BiasFactor / dt > 0.0;
      SignOfProduct(offset, BiasFactor / dt);
      SignOfProduct(lambda, m);
      DotScale(dir, lambda);
      SignOfProduct(lambda, Dot(dir, dir));
    }
  }

  lemma DotScale(v: Vec3, s: real)
    ensures Dot(Scale(v, s), v) == s * Dot(v, v)
  {
  }

  lemma SignOfProduct(x: real, y: real)
    requires y > 0.0
    ensures x * y > 0.0 <==> x > 0.0
    ensures y * x > 0.0 <==> x > 0.0
    ensures x * y < 0.0 <==> x < 0.0
  {
  }

  /**
   * Body A at the origin and body B at (5, 0, 0), both at rest with inverse
   * mass 1, rest length 2 and `dt = 1/60`: the bodies are 3 too far apart,
   * so A is pulled towards B by (0.9, 0, 0) and B towards A by (-0.9, 0, 0).
   */
  lemma TwoBodiesTooFarApart(length: LengthFn, normalise: NormaliseFn)
    requires length(Vec3(-5.0, 0.0, 0.0)) == 5.0
    requires normalise(Vec3(-5.0, 0.0, 0.0)) == Vec3(-1.0, 0.0, 0.0)
    ensures var a := Body(Zero3, Zero3, 1.0);
      var b := Body(Vec3(5.0, 0.0, 0.0), Zero3, 1.0);
      && Offset(length, 2.0, a, b) == -3.0
      && Solve(length, normalise, 2.0, a, b, 1.0 / 60.0) == Impulses(Vec3(0.9, 0.0, 0.0), Vec3(-0.9, 0.0, 0.0))
  {
    var a := Body(Zero3, Zero3, 1.0);
    var b := Body(Vec3(5.0, 0.0, 0.0), Zero3, 1.0);
    assert Sub(a.position, b.position) == Vec3(-5.0, 0.0, 0.0);
    ImpulseFormula(length, normalise, 2.0, a, b, 1.0 / 60.0);
    assert BiasFactor / (1.0 / 60.0) == 0.6;
  }

  /** The engine's `PhysicsObject`, reduced to what the constraint reads and the impulses it receives. */
  class PhysicsObject {
    var linearVelocity: Vec3
    var inverseMass: real
    /** Every impulse passed to `ApplyLinearImpulse`, oldest first. */
    var appliedImpulses: seq<Vec3>

    constructor (linearVelocity: Vec3, inverseMass: real)
      ensures this.linearVelocity == linearVelocity && this.inverseMass == inverseMass
      ensures appliedImpulses == []
    {
      this.linearVelocity := linearVelocity;
      this.inverseMass := inverseMass;
      appliedImpulses := [];
    }

    /** `PhysicsObject::ApplyLinearImpulse`, as a record of the call. */
    method ApplyLinearImpulse(impulse: Vec3)
      modifies this`appliedImpulses
      ensures appliedImpulses == old(appliedImpulses) + [impulse]
    {
      appliedImpulses := appliedImpulses + [impulse];
    }

    function State(position: Vec3): Body
      reads this
    {
      Body(position, linearVelocity, inverseMass)
    }
  }

  /** The engine's `GameObject`: its transform's position and its physics object. */
  class GameObject {
    var position: Vec3
    var physicsObject: PhysicsObject

    constructor (position: Vec3, physicsObject: PhysicsObject)
      ensures this.position == position && this.physicsObject == physicsObject
    {
      this.position := position;
      this.physicsObject := physicsObject;
    }

    /** The body `UpdateConstraint` sees through this object. */
    function Body(): Body
      reads this, physicsObject
    {
      physicsObject.State(position)
    }
  }

  class PositionConstraint {
    var objectA: GameObject
    var objectB: GameObject
    var distance: real

    /** `PositionConstraint(a, b, d)` */
    constructor (a: GameObject, b: GameObject, d: real)
      ensures objectA == a && objectB == b && distance == d
    {
      objectA := a;
      objectB := b;
      distance := d;
    }

    /**
     * `PositionConstraint::UpdateConstraint(dt)`. Its only effects are the two
     * `ApplyLinearImpulse` calls, A's first, with the pair `Solve` gives; when
     * both game objects share one physics object it receives both, in that order.
     */
    method UpdateConstraint(length: LengthFn, normalise: NormaliseFn, dt: real)
      requires dt > 0.0
      modifies objectA.physicsObject`appliedImpulses, objectB.physicsObject`appliedImpulses
      ensures var r := Solve(length, normalise, distance, old(objectA.Body()), old(objectB.Body()), dt);
        var physA := objectA.physicsObject;
        var physB := objectB.physicsObject;
        match r
        case NoImpulse =>
          physA.appliedImpulses == old(physA.appliedImpulses) && physB.appliedImpulses == old(physB.appliedImpulses)
        case Impulses(onA, onB) =>
          if physA == physB then physA.appliedImpulses == old(physA.appliedImpulses) + [onA, onB]
          else (physA.appliedImpulses == old(physA.appliedImpulses) + [onA]
                && physB.appliedImpulses == old(physB.appliedImpulses) + [onB])
    {
      ghost var r := Solve(length, normalise, distance, objectA.Body(), objectB.Body(), dt);
      var relativePos := Sub(objectA.position, objectB.position);
      var currentDistance := length(relativePos);
      var offset := distance - currentDistance;
      if Abs(offset) > 0.0 {
        var offsetDir := normalise(relativePos);
        var physA := objectA.physicsObject;
        var physB := objectB.physicsObject;
        var relativeVelocity := Sub(physA.linearVelocity, physB.linearVelocity);
        var constraintMass := physA.inverseMass + physB.inverseMass;
        if constraintMass > 0.0 {
          var velocityDot := Dot(relativeVelocity, offsetDir);
          var bias := Bias(offset, dt);
          var lambda := Multiplier(velocityDot, bias, constraintMass);
          var aImpulse := Scale(offsetDir, lambda);
          var bImpulse := Scale(Neg(offsetDir), lambda);
          assert r == Impulses(aImpulse, bImpulse);
          physA.ApplyLinearImpulse(aImpulse);
          physB.ApplyLinearImpulse(bImpulse);
        } else {
          assert r == NoImpulse;
        }
      } else {
        assert r == NoImpulse;
      }
    }
  }
}
