/** The per-tick interpolation of the joint angles toward their targets:
    bounded, distance-proportional speed with an exact snap once close. */
module Motion {
  import opened Kinematics

  /** Below this distance (degrees) a joint snaps onto its target. */
  const SnapDistance: real := 0.05
  /** Slowest and fastest step, in degrees per tick. */
  const MinSpeed: real := 0.2
  const MaxSpeed: real := 5.0
  /** The speed is the distance divided by this, before the bounds apply. */
  const SpeedDivisor: real := 10.0

  /** `min(max(0.2, dist / 10), 5.0, dist)`: the step length for a joint
      that is `dist` degrees away from its target. */
  function Speed(dist: real): (s: real)
    requires dist >= 0.0
    ensures Min(MinSpeed, dist) <= s <= MaxSpeed
    ensures s <= dist
    ensures s < dist ==> s >= MinSpeed
    ensures dist >= 50.0 ==> s == MaxSpeed
    ensures 2.0 <= dist <= 50.0 ==> s == dist / SpeedDivisor
    ensures MinSpeed <= dist <= 2.0 ==> s == MinSpeed
    ensures dist <= MinSpeed ==> s == dist
  {
    Min(Min(Max(MinSpeed, dist / SpeedDivisor), MaxSpeed), dist)
  }

  /** One tick of one joint: move from `c` toward `t` by `Speed`, or land
      on `t` exactly when within `SnapDistance`. */
  function StepJoint(c: real, t: real): (n: real)
    ensures Abs(c - t) <= SnapDistance ==> n == t
    ensures Abs(c - t) > SnapDistance && c < t ==> c < n <= t
    ensures Abs(c - t) > SnapDistance && c > t ==> t <= n < c
    ensures n == t || Abs(n - t) <= Abs(c - t) - MinSpeed
    ensures Abs(c - t) > SnapDistance ==> Abs(n - c) == Speed(Abs(c - t))
    ensures Abs(n - c) <= MaxSpeed
    ensures Abs(n - t) <= Abs(c - t)
  {
    var dist := Abs(c - t);
    var speed := Speed(dist);
    if dist > SnapDistance then
      (if c < t then c + speed else c - speed)
    else
      t
  }

  /** One tick of both joints; each joint sees only its own angle and target. */
  function StepPose(cur: Pose, tgt: Pose): (n: Pose)
    ensures cur == tgt ==> n == tgt
    ensures Abs(n.theta1 - cur.theta1) <= MaxSpeed && Abs(n.theta2 - cur.theta2) <= MaxSpeed
    ensures Abs(n.theta1 - tgt.theta1) <= Abs(cur.theta1 - tgt.theta1)
    ensures Abs(n.theta2 - tgt.theta2) <= Abs(cur.theta2 - tgt.theta2)
  {
    Pose(StepJoint(cur.theta1, tgt.theta1), StepJoint(cur.theta2, tgt.theta2))
  }

  /** A pose at rest stays put. */
  lemma StepPoseAtRest(p: Pose)
    ensures StepPose(p, p) == p
  {
  }

  /** The joint angle after `k` ticks toward a fixed target. */
  function StepJointTimes(c: real, t: real, k: nat): (r: real)
    ensures Abs(r - t) <= Abs(c - t)
    ensures Abs(r - c) <= MaxSpeed * (k as real)
    decreases k
  {
    if k == 0 then c
    else
      var n := StepJoint(c, t);
      var r := StepJointTimes(n, t, k - 1);
      assert Abs(r - c) <= Abs(r - n) + Abs(n - c);
      r
  }

  /** The pose after `k` ticks toward a fixed target. */
  function StepPoseTimes(cur: Pose, tgt: Pose, k: nat): (r: Pose)
    ensures cur == tgt ==> r == tgt
    ensures Abs(r.theta1 - tgt.theta1) <= Abs(cur.theta1 - tgt.theta1)
    ensures Abs(r.theta2 - tgt.theta2) <= Abs(cur.theta2 - tgt.theta2)
    decreases k
  {
    if k == 0 then cur else StepPoseTimes(StepPose(cur, tgt), tgt, k - 1)
  }

  /** Once on target, any number of further ticks keeps the joint there. */
  lemma {:induction false} StaysAtTarget(t: real, k: nat)
    ensures StepJointTimes(t, t, k) == t
    decreases k
  {
    if k > 0 {
      StaysAtTarget(t, k - 1);
    }
  }

  /** A joint less than `0.2 * k` degrees away is exactly on target after
      `k` ticks: each tick either lands or closes at least 0.2 degrees. */
  lemma {:induction false} ConvergesWithin(c: real, t: real, k: nat)
    requires Abs(c - t) < MinSpeed * (k as real)
    ensures StepJointTimes(c, t, k) == t
    decreases k
  {
    var n := StepJoint(c, t);
    if n == t {
      StaysAtTarget(t, k - 1);
    } else {
      ConvergesWithin(n, t, k - 1);
    }
  }

  /** A tick bound derived from the speed schedule: `floor(5 * dist) + 1`. */
  function TickBound(c: real, t: real): (k: nat)
    ensures Abs(c - t) < MinSpeed * (k as real)
  {
    var d := Abs(c - t);
    var k := (d / MinSpeed).Floor + 1;
    assert (k as real) > d / MinSpeed;
    k
  }

  /** Every joint reaches its target exactly after `TickBound` ticks, and
      stays there for every tick after. */
  lemma {:induction false} JointConverges(c: real, t: real, k: nat)
    requires k >= TickBound(c, t)
    ensures StepJointTimes(c, t, k) == t
  {
    assert MinSpeed * (TickBound(c, t) as real) <= MinSpeed * (k as real);
    ConvergesWithin(c, t, k);
  }

  /** The pose after `k` ticks is the two joints ticked `k` times apart. */
  lemma {:induction false} StepPoseTimesByJoint(cur: Pose, tgt: Pose, k: nat)
    ensures StepPoseTimes(cur, tgt, k)
         == Pose(StepJointTimes(cur.theta1, tgt.theta1, k), StepJointTimes(cur.theta2, tgt.theta2, k))
    decreases k
  {
    if k > 0 {
      StepPoseTimesByJoint(StepPose(cur, tgt), tgt, k - 1);
    }
  }

  /** The whole arm reaches its target pose exactly within the larger of
      the two joints' tick bounds, and then stays there. */
  lemma PoseConverges(cur: Pose, tgt: Pose, k: nat)
    requires k >= TickBound(cur.theta1, tgt.theta1) && k >= TickBound(cur.theta2, tgt.theta2)
    ensures StepPoseTimes(cur, tgt, k) == tgt
  {
    StepPoseTimesByJoint(cur, tgt, k);
    JointConverges(cur.theta1, tgt.theta1, k);
    JointConverges(cur.theta2, tgt.theta2, k);
  }
}
