/** One particle's share of `updatePhysics`: the pointer's push, the velocity
    damping, the spring back to the rest position and the soft clamp on the
    displacement. The transcendental functions come in as a `Math` value. */
module Physics {
  import opened Config
  import opened Particles
  import opened JsMath

  /** Square of the pointer influence radius. */
  const RadiusSquared: real := DistortionRadius * DistortionRadius
  /** Velocity kept on every tick. */
  const Friction: real := 0.82
  /** Velocity kept, on top of `Friction`, by a particle the clamp caught. */
  const ClampFriction: real := 0.7
  /** Rate at which the clamp's pull fades with the excess displacement. */
  const ClampDecay: real := 0.02

  /** What one particle's step yields: its record and its new position. */
  datatype Moved = Moved(particle: Particle, x: real, y: real)

  function DistanceSquared(dx: real, dy: real): real {
    dx * dx + dy * dy
  }

  /** A squared distance is never negative. */
  lemma DistanceSquaredNonNegative(dx: real, dy: real)
    ensures DistanceSquared(dx, dy) >= 0.0
  {
    SquareNonNegative(dx);
    SquareNonNegative(dy);
  }

  lemma SquareNonNegative(a: real)
    ensures a * a >= 0.0
  {
  }

  /** The pointer acts on a particle strictly inside the radius and not
      exactly under it. */
  predicate InRadius(d2: real) {
    d2 < RadiusSquared && d2 > 0.0
  }

  /** The (negative, that is repulsive) force at squared distance d2. */
  function Force(d2: real): (f: real)
    requires InRadius(d2)
    ensures f < -1.0
  {
    QuotientAboveOne(RadiusSquared, d2);
    -RadiusSquared / d2
  }

  lemma QuotientAboveOne(k: real, d: real)
    requires 0.0 < d < k
    ensures k / d > 1.0
  {
    var q := k / d;
    assert q * d == k;
    if q <= 1.0 {
      ProductAtMost(d, q);
    }
  }

  /** Scaling a positive number by a factor in (0, 1] does not enlarge it. */
  lemma ProductAtMost(a: real, e: real)
    requires 0.0 < a && e <= 1.0
    ensures a * e <= a
  {
    assert a - a * e == a * (1.0 - e);
  }

  lemma ProductAtLeast(a: real, e: real)
    requires 0.0 < a && 1.0 <= e
    ensures a <= a * e
  {
    assert a * e - a == a * (e - 1.0);
  }

  /** The nearer the pointer, the stronger the push. */
  lemma ForceGrowsNearer(d1: real, d2: real)
    requires InRadius(d1) && InRadius(d2) && d1 < d2
    ensures Force(d1) < Force(d2)
  {
    var k := RadiusSquared;
    assert k / d1 * d1 == k && k / d2 * d2 == k;
    assert (k / d1 - k / d2) * d1 * d2 == k * (d2 - d1);
  }

  /** `Math.max` on two numbers. */
  function Max(a: real, b: real): real {
    if a >= b then a else b
  }

  /** The push multiplier: full strength at the rest position, fading
      linearly with the distance from it, but never below 0.1. */
  function Falloff(distFromOrigin: real): (f: real)
    ensures 0.1 <= f
    ensures 0.0 <= distFromOrigin ==> f <= 1.0
  {
    Max(0.1, 1.0 - distFromOrigin / (MaxDisplacement * 2.0))
  }

  /** The multiplier does not grow with the distance, and it sits at its
      floor exactly from 1.8 times the maximum displacement on. */
  lemma FalloffShape(d1: real, d2: real)
    ensures d1 <= d2 ==> Falloff(d2) <= Falloff(d1)
    ensures Falloff(d1) == 0.1 <==> d1 >= 1.8 * MaxDisplacement
  {
  }

  /** The pointer's push on the velocity of a particle at (x, y). */
  function Accelerate(m: Math, mouseX: real, mouseY: real, p: Particle, x: real, y: real): (q: Particle)
    ensures q.originalX == p.originalX && q.originalY == p.originalY
    ensures !InRadius(DistanceSquared(mouseX - x, mouseY - y)) ==> q == p
  {
    var deltaX := mouseX - x;
    var deltaY := mouseY - y;
    var d2 := DistanceSquared(deltaX, deltaY);
    if InRadius(d2) then
      var force := Force(d2);
      var angle := m.atan2(deltaY, deltaX);
      var fromOrigin := m.sqrt(DistanceSquared(x - p.originalX, y - p.originalY));
      var multiplier := Falloff(fromOrigin);
      p.(velocityX := p.velocityX + force * m.cos(angle) * ForceStrength * multiplier,
         velocityY := p.velocityY + force * m.sin(angle) * ForceStrength * multiplier)
    else
      p
  }

  /** The particle after the push and the 0.82 damping, before the clamp. */
  function Driven(m: Math, mouseX: real, mouseY: real, p: Particle, x: real, y: real): (q: Particle)
    ensures q.originalX == p.originalX && q.originalY == p.originalY
    ensures !InRadius(DistanceSquared(mouseX - x, mouseY - y)) ==>
              q.velocityX == p.velocityX * Friction && q.velocityY == p.velocityY * Friction
  {
    var q := Accelerate(m, mouseX, mouseY, p, x, y);
    q.(velocityX := q.velocityX * Friction, velocityY := q.velocityY * Friction)
  }

  /** The target position: the current one moved by the velocity and pulled
      towards the rest position, so that the displacement from the rest
      position shrinks by the return factor and then shifts by the
      velocity. */
  function Spring(q: Particle, x: real, y: real): (t: (real, real))
    ensures t.0 - q.originalX == (x - q.originalX) * (1.0 - ReturnForce) + q.velocityX
    ensures t.1 - q.originalY == (y - q.originalY) * (1.0 - ReturnForce) + q.velocityY
  {
    (x + q.velocityX + (q.originalX - x) * ReturnForce,
     y + q.velocityY + (q.originalY - y) * ReturnForce)
  }

  /** The factor the clamp applies to a displacement of length dist. */
  function DampedScale(m: Math, dist: real): real
    requires dist > 0.0
  {
    var excess := dist - MaxDisplacement;
    var scale := MaxDisplacement / dist;
    scale + (1.0 - scale) * m.exp(-excess * ClampDecay)
  }

  /** The soft clamp: a target displaced from the rest position by more than
      the maximum is pulled back towards it and the velocity is damped again;
      any other target is taken as it is. */
  function SoftClamp(m: Math, q: Particle, tx: real, ty: real): (r: Moved)
    ensures r.particle.originalX == q.originalX && r.particle.originalY == q.originalY
    ensures m.sqrt(DistanceSquared(tx - q.originalX, ty - q.originalY)) <= MaxDisplacement ==>
              r == Moved(q, tx, ty)
  {
    var offsetX := tx - q.originalX;
    var offsetY := ty - q.originalY;
    var dist := m.sqrt(DistanceSquared(offsetX, offsetY));
    if dist > MaxDisplacement then
      var dampedScale := DampedScale(m, dist);
      Moved(q.(velocityX := q.velocityX * ClampFriction, velocityY := q.velocityY * ClampFriction),
            q.originalX + offsetX * dampedScale, q.originalY + offsetY * dampedScale)
    else
      Moved(q, tx, ty)
  }

  /** The body of the per-particle loop of `updatePhysics`: push, damp,
      spring, then clamp a displacement beyond the maximum. */
  function Step(m: Math, mouseX: real, mouseY: real, p: Particle, x: real, y: real): (r: Moved)
    ensures r.particle.originalX == p.originalX && r.particle.originalY == p.originalY
  {
    var q := Driven(m, mouseX, mouseY, p, x, y);
    var target := Spring(q, x, y);
    SoftClamp(m, q, target.0, target.1)
  }

  /** A target beyond the maximum displacement is pulled back along the same
      direction, by a factor in (0, 1], to a displacement still above the
      maximum but no larger than the target's; the particle loses a further
      30% of its velocity. */
  lemma ClampActive(m: Math, q: Particle, tx: real, ty: real)
    requires IsSqrt(m.sqrt) && DecaysWithin(m.exp)
    requires m.sqrt(DistanceSquared(tx - q.originalX, ty - q.originalY)) > MaxDisplacement
    ensures var offX, offY := tx - q.originalX, ty - q.originalY;
            var before := m.sqrt(DistanceSquared(offX, offY));
            var k := DampedScale(m, before);
            var r := SoftClamp(m, q, tx, ty);
            && 0.0 < k <= 1.0
            && r.x - q.originalX == k * offX && r.y - q.originalY == k * offY
            && MaxDisplacement < m.sqrt(DistanceSquared(r.x - q.originalX, r.y - q.originalY)) <= before
            && r.particle.velocityX == q.velocityX * ClampFriction
            && r.particle.velocityY == q.velocityY * ClampFriction
  {
    var offX, offY := tx - q.originalX, ty - q.originalY;
    var before := m.sqrt(DistanceSquared(offX, offY));
    var k := DampedScale(m, before);
    ClampFactor(m, before);
    ClampMoves(m, q, tx, ty);
    ClampedLength(m.sqrt, offX, offY, k);
    var r := SoftClamp(m, q, tx, ty);
    assert DistanceSquared(r.x - q.originalX, r.y - q.originalY) == DistanceSquared(k * offX, k * offY);
  }

  /** The clamp's effect on position and velocity, written with its factor. */
  lemma ClampMoves(m: Math, q: Particle, tx: real, ty: real)
    requires m.sqrt(DistanceSquared(tx - q.originalX, ty - q.originalY)) > MaxDisplacement
    ensures var offX, offY := tx - q.originalX, ty - q.originalY;
            var k := DampedScale(m, m.sqrt(DistanceSquared(offX, offY)));
            var r := SoftClamp(m, q, tx, ty);
            && r.x - q.originalX == k * offX && r.y - q.originalY == k * offY
            && r.particle.velocityX == q.velocityX * ClampFriction
            && r.particle.velocityY == q.velocityY * ClampFriction
  {
  }

  /** Scaling a vector by a factor in (0, 1] that keeps its length above the
      maximum leaves the length above the maximum and no larger than before. */
  lemma ClampedLength(sqrt: real -> real, dx: real, dy: real, k: real)
    requires IsSqrt(sqrt) && 0.0 < k <= 1.0
    requires MaxDisplacement < k * sqrt(DistanceSquared(dx, dy))
    ensures MaxDisplacement < sqrt(DistanceSquared(k * dx, k * dy)) <= sqrt(DistanceSquared(dx, dy))
  {
    var before := sqrt(DistanceSquared(dx, dy));
    DistanceSquaredNonNegative(dx, dy);
    ScaledLength(sqrt, dx, dy, k);
    ProductAtMost(before, k);
    assert k * before == before * k;
  }

  /** The clamp factor for a displacement beyond the maximum lies in
      (maximum / dist, 1], and it leaves the displacement above the maximum. */
  lemma ClampFactor(m: Math, dist: real)
    requires DecaysWithin(m.exp) && dist > MaxDisplacement
    ensures 0.0 < DampedScale(m, dist) <= 1.0
    ensures MaxDisplacement < DampedScale(m, dist) * dist
  {
    var scale := MaxDisplacement / dist;
    var e := m.exp(-(dist - MaxDisplacement) * ClampDecay);
    assert 0.0 < e <= 1.0;
    assert scale * dist == MaxDisplacement;
    if scale >= 1.0 {
      ProductAtLeast(dist, scale);
    }
    var gap := 1.0 - scale;
    assert 0.0 < gap;
    ProductAtMost(gap, e);
    PositiveProduct(gap, e);
    PositiveProduct(gap * e, dist);
    assert DampedScale(m, dist) == scale + gap * e;
    assert (scale + gap * e) * dist == scale * dist + gap * e * dist;
  }

  lemma PositiveProduct(a: real, b: real)
    requires 0.0 < a && 0.0 < b
    ensures 0.0 < a * b
  {
  }

  /** Scaling a vector by k >= 0 scales its length by k. */
  lemma ScaledLength(sqrt: real -> real, dx: real, dy: real, k: real)
    requires IsSqrt(sqrt) && 0.0 <= k
    ensures sqrt(DistanceSquared(k * dx, k * dy)) == k * sqrt(DistanceSquared(dx, dy))
  {
    DistanceSquaredNonNegative(dx, dy);
    var d := DistanceSquared(dx, dy);
    var len := sqrt(d);
    assert len * len == d;
    ScaledDistance(dx, dy, k);
    SquareOfProduct(k, len);
    NonNegativeProduct(k, len);
    SqrtUnique(sqrt, DistanceSquared(k * dx, k * dy), k * len);
  }

  lemma ScaledDistance(dx: real, dy: real, k: real)
    ensures DistanceSquared(k * dx, k * dy) == (k * k) * DistanceSquared(dx, dy)
  {
  }

  lemma SquareOfProduct(k: real, a: real)
    ensures (k * a) * (k * a) == (k * k) * (a * a)
  {
  }

  lemma NonNegativeProduct(a: real, b: real)
    requires 0.0 <= a && 0.0 <= b
    ensures 0.0 <= a * b
  {
  }

  /** The pointer pushes a particle inside the radius directly away from
      itself: the change of velocity points against the vector from the
      particle to the pointer. */
  lemma PushAway(m: Math, mouseX: real, mouseY: real, p: Particle, x: real, y: real)
    requires IsSqrt(m.sqrt) && PolarConsistent(m)
    requires InRadius(DistanceSquared(mouseX - x, mouseY - y))
    ensures var q := Accelerate(m, mouseX, mouseY, p, x, y);
            (q.velocityX - p.velocityX) * (mouseX - x) + (q.velocityY - p.velocityY) * (mouseY - y) < 0.0
  {
    var dx, dy := mouseX - x, mouseY - y;
    var d2 := DistanceSquared(dx, dy);
    var angle := m.atan2(dy, dx);
    PolarDot(m, dx, dy);
    var gain := PushGain(m, mouseX, mouseY, p, x, y);
    var q := Accelerate(m, mouseX, mouseY, p, x, y);
    AgainstDirection(q.velocityX - p.velocityX, q.velocityY - p.velocityY, gain, m.cos(angle), m.sin(angle),
                     dx, dy, m.sqrt(d2));
  }

  /** The unit vector at the angle of (dx, dy) has a positive dot product
      with it. */
  lemma PolarDot(m: Math, dx: real, dy: real)
    requires IsSqrt(m.sqrt) && PolarConsistent(m)
    requires 0.0 < DistanceSquared(dx, dy)
    ensures 0.0 < m.sqrt(DistanceSquared(dx, dy))
    ensures m.cos(m.atan2(dy, dx)) * dx + m.sin(m.atan2(dy, dx)) * dy == m.sqrt(DistanceSquared(dx, dy))
  {
    SqrtPositive(m.sqrt, DistanceSquared(dx, dy));
  }

  /** The push is a negative multiple of the unit vector towards the pointer. */
  lemma PushGain(m: Math, mouseX: real, mouseY: real, p: Particle, x: real, y: real) returns (gain: real)
    requires InRadius(DistanceSquared(mouseX - x, mouseY - y))
    ensures gain < 0.0
    ensures var q := Accelerate(m, mouseX, mouseY, p, x, y);
            var angle := m.atan2(mouseY - y, mouseX - x);
            q.velocityX - p.velocityX == gain * m.cos(angle) && q.velocityY - p.velocityY == gain * m.sin(angle)
  {
    var fromOrigin := m.sqrt(DistanceSquared(x - p.originalX, y - p.originalY));
    var f := Force(DistanceSquared(mouseX - x, mouseY - y));
    var falloff := Falloff(fromOrigin);
    PositiveProduct(ForceStrength, falloff);
    NegativeProduct(f, ForceStrength * falloff);
    gain := f * (ForceStrength * falloff);
  }

  /** A negative multiple of a vector whose dot product with (dx, dy) is
      positive points against (dx, dy). */
  lemma AgainstDirection(u: real, v: real, gain: real, c: real, s: real, dx: real, dy: real, len: real)
    requires u == gain * c && v == gain * s
    requires gain < 0.0 && 0.0 < len && c * dx + s * dy == len
    ensures u * dx + v * dy < 0.0
  {
    NegativeProduct(gain, len);
    assert (gain * c) * dx + (gain * s) * dy == gain * (c * dx + s * dy);
  }

  lemma NegativeProduct(a: real, b: real)
    requires a < 0.0 && 0.0 < b
    ensures a * b < 0.0
  {
    PositiveProduct(-a, b);
    assert a * b == -((-a) * b);
  }

  /** A particle at rest at its rest position, with the pointer outside the
      radius, stays exactly where and as it is. */
  lemma AtRestStaysPut(m: Math, mouseX: real, mouseY: real, p: Particle)
    requires IsSqrt(m.sqrt)
    requires p.velocityX == 0.0 && p.velocityY == 0.0
    requires !InRadius(DistanceSquared(mouseX - p.originalX, mouseY - p.originalY))
    ensures Step(m, mouseX, mouseY, p, p.originalX, p.originalY) == Moved(p, p.originalX, p.originalY)
  {
    SqrtUnique(m.sqrt, 0.0, 0.0);
  }
}
