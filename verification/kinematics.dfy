/** Geometry of the two-link planar arm: the link lengths, the screen/arm
    coordinate transform and the inverse-kinematics solver with its
    reachability gate and cosine clamp. All arithmetic is exact (`real`). */
module Kinematics {

  datatype Option<T> = None | Some(value: T)

  /** A joint-angle pair in degrees: `theta1` at the shoulder, measured from
      the positive x-axis; `theta2` at the elbow, relative to the upper arm. */
  datatype Pose = Pose(theta1: real, theta2: real)

  /** The transcendental functions the solver calls (`math.acos`, `math.sin`,
      `math.cos`, `math.atan2`, `math.degrees`). They are not modelled and
      are supplied by the caller. */
  datatype Trig = Trig(
    acos: real -> real,
    sin: real -> real,
    cos: real -> real,
    atan2: (real, real) -> real,
    degrees: real -> real)

  const Width: int := 800
  const Height: int := 600
  const OriginX: int := Width / 2
  const OriginY: int := Height - 100
  const Scale: int := 25

  /** Upper-arm and forearm lengths, in arm units. */
  const L1: real := 8.0
  const L2: real := 10.0

  function Abs(v: real): (r: real)
    ensures r >= 0.0 && (r == v || r == -v)
  {
    if v < 0.0 then -v else v
  }

  function Min(a: real, b: real): (r: real)
    ensures r <= a && r <= b && (r == a || r == b)
  {
    if a <= b then a else b
  }

  function Max(a: real, b: real): (r: real)
    ensures r >= a && r >= b && (r == a || r == b)
  {
    if a >= b then a else b
  }

  /** The annulus the end effector can reach, stated on the squared radius:
      `|L1 - L2|^2 <= x^2 + y^2 <= (L1 + L2)^2`. */
  predicate Reachable(x: real, y: real)
    ensures Reachable(x, y) ==> x != 0.0 || y != 0.0
    ensures Reachable(x, y) ==> -(L1 + L2) <= x <= L1 + L2 && -(L1 + L2) <= y <= L1 + L2
  {
    (L1 - L2) * (L1 - L2) <= x * x + y * y <= (L1 + L2) * (L1 + L2)
  }

  /** The source's gate on the radius `r = hypot(x, y)`: too far or too close. */
  predicate OutsideRadius(r: real)
    ensures r == L1 + L2 || r == Abs(L1 - L2) ==> !OutsideRadius(r)
    ensures r < 0.0 ==> OutsideRadius(r)
  {
    r > L1 + L2 || r < Abs(L1 - L2)
  }

  /** For any non-negative `r` whose square is `x^2 + y^2` (what `hypot`
      computes in exact arithmetic), the radius gate rejects exactly the
      targets outside the squared annulus. */
  lemma GateBySquares(x: real, y: real, r: real)
    requires r >= 0.0 && r * r == x * x + y * y
    ensures OutsideRadius(r) <==> !Reachable(x, y)
  {
    assert Abs(L1 - L2) == 2.0;
    if r > 18.0 {
      assert r * r > 18.0 * r >= 324.0;
    } else {
      assert r * r <= 18.0 * r <= 324.0;
    }
    if r < 2.0 {
      assert r * r <= 2.0 * r < 4.0;
    } else {
      assert r * r >= 2.0 * r >= 4.0;
    }
  }

  /** Law of cosines for the elbow, `(r^2 - L1^2 - L2^2) / (2 L1 L2)`,
      before the clamp. */
  function ElbowCosine(r2: real): (c: real)
    ensures r2 <= (L1 + L2) * (L1 + L2) ==> c <= 1.0
    ensures r2 >= (L1 - L2) * (L1 - L2) ==> c >= -1.0
    ensures r2 == (L1 + L2) * (L1 + L2) ==> c == 1.0
    ensures r2 == (L1 - L2) * (L1 - L2) ==> c == -1.0
  {
    (r2 - L1 * L1 - L2 * L2) / (2.0 * L1 * L2)
  }

  /** `max(-1.0, min(1.0, c))`: the value handed to `acos`. */
  function ClampCosine(c: real): (r: real)
    ensures -1.0 <= r <= 1.0
    ensures -1.0 <= c <= 1.0 ==> r == c
    ensures c > 1.0 ==> r == 1.0
    ensures c < -1.0 ==> r == -1.0
  {
    Max(-1.0, Min(1.0, c))
  }

  /** The solver: `None` for an unreachable target, otherwise the
      elbow-up solution in degrees. */
  function InverseKinematics(m: Trig, x: real, y: real): (r: Option<Pose>)
    ensures r.Some? <==> Reachable(x, y)
    ensures r.Some? ==> r.value.theta2 == m.degrees(m.acos(ElbowCosine(x * x + y * y)))
    ensures r.Some? ==>
      var elbow := m.acos(ElbowCosine(x * x + y * y));
      r.value.theta1 == m.degrees(m.atan2(y, x) - m.atan2(L2 * m.sin(elbow), L1 + L2 * m.cos(elbow)))
  {
    var r2 := x * x + y * y;
    if r2 > (L1 + L2) * (L1 + L2) || r2 < (L1 - L2) * (L1 - L2) then
      None
    else
      var theta2 := m.acos(ClampCosine(ElbowCosine(r2)));
      var theta1 := m.atan2(y, x) - m.atan2(L2 * m.sin(theta2), L1 + L2 * m.cos(theta2));
      Some(Pose(m.degrees(theta1), m.degrees(theta2)))
  }

  /** Both boundary circles are reachable; on them the elbow cosine is
      exactly 1 (arm stretched) or -1 (arm folded), so the clamp is idle. */
  lemma BoundariesReachable(m: Trig, x: real, y: real)
    requires x * x + y * y == (L1 + L2) * (L1 + L2) || x * x + y * y == (L1 - L2) * (L1 - L2)
    ensures InverseKinematics(m, x, y).Some?
    ensures x * x + y * y == 324.0 ==> InverseKinematics(m, x, y).value.theta2 == m.degrees(m.acos(1.0))
    ensures x * x + y * y == 4.0 ==> InverseKinematics(m, x, y).value.theta2 == m.degrees(m.acos(-1.0))
  {
  }

  /** The origin lies inside the inner hole and is refused; a point at
      distance sqrt(50) is inside the annulus; the fully stretched point
      (18, 0) is accepted with the elbow straight. */
  lemma SolverExamples(m: Trig)
    ensures InverseKinematics(m, 0.0, 0.0) == None
    ensures InverseKinematics(m, 5.0, 5.0).Some?
    ensures InverseKinematics(m, 18.0, 0.0).Some?
    ensures InverseKinematics(m, 18.0, 0.0).value.theta2 == m.degrees(m.acos(1.0))
  {
  }

  /** Screen pixel to arm coordinates: subtract the origin, divide by the
      scale, flip the y axis. */
  function ScreenToArm(mx: int, my: int): (p: (real, real))
    ensures ArmToScreen(p.0, p.1) == ((mx as real), (my as real))
  {
    (((mx - OriginX) as real) / (Scale as real), -((my - OriginY) as real) / (Scale as real))
  }

  /** Arm coordinates to screen pixel, as the renderer places a joint. */
  function ArmToScreen(x: real, y: real): (s: (real, real))
    ensures x == 0.0 && y == 0.0 ==> s == (OriginX as real, OriginY as real)
    ensures s.0 > OriginX as real <==> x > 0.0
    ensures s.1 < OriginY as real <==> y > 0.0
    ensures (s.0 - OriginX as real) / (Scale as real) == x && (OriginY as real - s.1) / (Scale as real) == y
  {
    ((OriginX as real) + x * (Scale as real), (OriginY as real) - y * (Scale as real))
  }

  /** The two transforms are mutually inverse: a pixel that the renderer
      would draw an arm point at maps back to that very point. */
  lemma ScreenRoundTrip(x: real, y: real, mx: int, my: int)
    requires ArmToScreen(x, y) == (mx as real, my as real)
    ensures ScreenToArm(mx, my) == (x, y)
  {
  }
}
