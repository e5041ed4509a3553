# Two-link robot-arm simulator, control core

A Dafny model of the control logic of an interactive two-link planar arm
simulator (`arm.py`). A click is turned into arm coordinates and handed to an
inverse-kinematics solver. The solver refuses targets outside the reachable
annulus, clamps the elbow cosine to [-1, 1] and returns a joint-angle pair.
Each frame, both joint angles then move toward their targets at a bounded,
distance-proportional speed and snap onto the target once within 0.05
degrees. An unreachable click tints the background for 10 frames.

The model has three modules:

- `Kinematics` (`kinematics.dfy`): link lengths (L1 = 8, L2 = 10), the
  reachability gate, the cosine clamp, the solver, and the screen/arm
  coordinate transforms.
- `Motion` (`motion.dfy`): the per-joint stepping rule, repeated stepping,
  and the proofs of exact convergence.
- `Simulation` (`simulation.dfy`): the event handling and flash countdown as
  functions, and the class `ArmState` with fields `current`, `target` and
  `flash`, whose methods `Click`, `Tick` and `Frame` update them in place as
  the main loop does.

Everything is exact `real` arithmetic. The model is not bit-exact with
Python floats. The transcendental functions the solver calls (`acos`, `sin`,
`cos`, `atan2`, `degrees`) are supplied as the `Trig` parameter and are not
interpreted. So the model fixes which value each one is applied to, but not
what it returns.

`hypot` is not modelled. The model states the gate on `x*x + y*y`, and
`GateBySquares` proves that this matches the source's gate on `r` for every
non-negative `r` with `r*r == x*x + y*y`. For the same reason, the elbow
cosine uses `x*x + y*y` in place of `r*r`.

Python's `if angles:` is true for every returned tuple, including
`(0.0, 0.0)`, so it tests only whether the solver returned `None`. A quit
event inside a poll sets `running` to false, but the rest of that poll is
still handled, and that frame still steps and counts down. `Frame` models
exactly this.

The convergence bound follows the code's speed rule,
`min(max(0.2, dist/10), 5.0, dist)`: 5.0 degrees per tick from 50 degrees
out, a tenth of the distance between 2 and 50 degrees, 0.2 between 0.2 and
2 degrees, and the whole remaining distance below that. Each tick either
lands exactly on the target or closes at least 0.2 degrees, so a joint `d`
degrees away is on target after `floor(5*d) + 1` ticks and stays there.
This bound comes from the 0.2 floor alone and is not tight.

## Model

| member | source | states |
|---|---|---|
| Kinematics.Reachable | arm.py:18 | the reachable annulus on the squared radius; it never contains the shoulder (the origin) and lies within the square of half-side `L1 + L2` |
| Kinematics.OutsideRadius | arm.py:18 | the source's radius gate; it lets both boundary radii `L1 + L2` and `abs(L1 - L2)` through |
| Kinematics.GateBySquares | arm.py:17-19 | for any `r >= 0` with `r*r = x*x + y*y`, the source's radius gate `r > L1+L2 or r < abs(L1-L2)` holds exactly when `x*x + y*y` lies outside `[4, 324]` |
| Kinematics.ElbowCosine | arm.py:21 | the law-of-cosines value is at most 1 inside the outer circle and at least -1 outside the inner circle; it is exactly 1 on the outer circle and exactly -1 on the inner one |
| Kinematics.ClampCosine | arm.py:22 | the clamped cosine lies in [-1, 1], equals its input when the input already lies in [-1, 1], and is 1 or -1 otherwise |
| Kinematics.InverseKinematics | arm.py:16-26 | returns `None` exactly for unreachable targets; for a reachable target both returned angles are computed from `acos` of the UNCLAMPED law-of-cosines value (elbow `degrees(acos(c))`, shoulder `degrees(atan2(y, x) - atan2(L2 sin, L1 + L2 cos))` of that elbow), so in exact arithmetic the clamp changes neither angle |
| Kinematics.BoundariesReachable | arm.py:18-22 | both boundary circles are reachable; there the elbow is `acos(1)` on the outer circle and `acos(-1)` on the inner one |
| Kinematics.SolverExamples | arm.py:16-26 | the origin is refused; (5, 5) is accepted; (18, 0) is accepted with elbow `acos(1)` |
| Kinematics.ScreenToArm | arm.py:72-73 | the screen-to-arm transform (subtract origin (400, 500), divide by 25, flip y) is undone by the renderer's arm-to-screen transform |
| Kinematics.ArmToScreen | arm.py:38-41 | the renderer's arm-to-screen transform: the shoulder maps to the origin pixel, positive x goes right and positive y goes up the screen, and subtracting the origin and dividing by the scale recovers the arm point |
| Kinematics.ScreenRoundTrip | arm.py:38-41 | a pixel at which the renderer places an arm point maps back to exactly that point |
| Motion.Speed | arm.py:87-88 | the step length is 5.0 from 50 degrees out, `dist/10` between 2 and 50, 0.2 between 0.2 and 2, and `dist` itself below 0.2; hence it lies between `min(0.2, dist)` and 5.0, never exceeds `dist`, and is at least 0.2 whenever it is below `dist` |
| Motion.StepJoint | arm.py:84-93 | a joint within 0.05 of its target lands exactly on it; a joint further away moves strictly toward the target, without overshoot, in the direction `c < t` picks; a moving joint travels exactly `Speed(dist)`, so never more than 5.0 degrees per tick; the joint never moves away from the target, and either lands or closes at least 0.2 degrees |
| Motion.StepPose | arm.py:81-100 | one tick of both joints: a pose at its target stays; each joint moves at most 5.0 degrees and never away from its own target |
| Motion.StepPoseAtRest | arm.py:81-100 | a pose already at its target is left unchanged by a tick |
| Motion.StepJointTimes | arm.py:84-93 | a joint ticked `k` times toward a fixed target never ends further from it, and has moved at most `5.0 * k` degrees |
| Motion.StepPoseTimes | arm.py:81-100 | a pose ticked `k` times toward a fixed target stays at it when it starts there, and no joint ends further from its target |
| Motion.StaysAtTarget | arm.py:90-93 | a joint on its target stays there for any number of ticks |
| Motion.ConvergesWithin | arm.py:84-93 | a joint less than `0.2*k` degrees from its target is exactly on it after `k` ticks |
| Motion.TickBound | arm.py:87 | `floor(5*dist) + 1` ticks cover the distance at the 0.2 floor speed |
| Motion.JointConverges | arm.py:84-93 | after `TickBound` or more ticks, a joint equals its target exactly |
| Motion.StepPoseTimesByJoint | arm.py:81-100 | ticking the pose `k` times is ticking each joint `k` times on its own, so each joint depends only on its own angle and target |
| Motion.PoseConverges | arm.py:81-100 | after at least the larger of the two joints' bounds, the pose equals the target pose exactly |
| Simulation.HandleClick | arm.py:71-79 | a reachable click replaces the target with the solver's angles and sets the flash to 0; an unreachable click keeps the target and sets the flash to 10 |
| Simulation.HandleEvent | arm.py:67-79 | one event: a quit event clears `running` and nothing else; a click acts as `HandleClick`; any other event changes nothing |
| Simulation.HandleEvents | arm.py:67-79 | all events of a poll in order: `running` can only be cleared; the flash is unchanged, 0 or 10; the target is unchanged or is the solver's answer for one of the poll's clicks |
| Simulation.RunningUnlessQuit | arm.py:65-69 | after a poll, the loop is still running exactly when it was running before and the poll held no quit event |
| Simulation.FlashInRange | arm.py:74-79 | event handling keeps the flash counter within [0, 10] |
| Simulation.NoClickNoChange | arm.py:67-79 | a poll without clicks leaves the target and the flash unchanged |
| Simulation.LastClickDecidesFlash | arm.py:67-79 | after a poll, the flash is 0 if its last click was reachable and 10 if it was not |
| Simulation.LastClickDecidesTarget | arm.py:67-79 | after a poll whose last click was reachable, the target is the solver's answer for that click |
| Simulation.HandleEventsAppend | arm.py:67-79 | handling two batches of events in turn equals handling their concatenation |
| Simulation.CountDown | arm.py:102-104 | one frame's countdown: drops by exactly one when positive, stays put otherwise, and never takes a non-negative counter below 0 |
| Simulation.CountDownTimes | arm.py:102-104 | after `k` frames a non-negative counter lies between 0 and its start, and has dropped by at most `k` |
| Simulation.CountDownTimesValue | arm.py:102-104 | a counter started at `f >= 0` reads `max(f - k, 0)` after `k` frames: it never goes negative, and a flash of 10 tints exactly the next 10 frames |
| Simulation.ArmState.constructor | arm.py:61-63 | the arm starts at rest in the pose (90, 0) with the flash off, and solves clicks with the trigonometry it was given |
| Simulation.ArmState.Click | arm.py:71-79 | updates target and flash as `HandleClick` says; leaves the current pose alone; keeps the flash within [0, 10] |
| Simulation.ArmState.Tick | arm.py:81-104 | the current pose takes one `StepPose` toward the unchanged target; a positive flash drops by one; the frame is tinted exactly when the flash was positive |
| Simulation.ArmState.Frame | arm.py:66-104 | handles the poll's events in order, as `HandleEvents` says, then ticks using the new target; reports whether the loop continues and whether the frame is tinted |

## Left out

- Rendering and windowing: `draw_arm` apart from its coordinate transform, display set-up, event polling, `clock.tick`, the text overlay and the workspace circle. These are I/O.
- The outer `while running` loop. It is unbounded and interactive, so the model covers one iteration (`ArmState.Frame`), and repeated ticks appear as `StepPoseTimes`.
- Trigonometry: `acos`, `sin`, `cos`, `atan2` and `degrees` are parameters, not interpreted functions. The model states which value each is applied to, but not what it returns. So the forward-kinematics round trip and the numeric range of the angles are not stated.
- `math.hypot`: replaced by the squared radius, as `Kinematics.GateBySquares` justifies.
- Floating-point rounding. The clamp exists in the source to absorb rounding at the boundary. In exact arithmetic it never changes a reachable target's value, and `Kinematics.InverseKinematics` states that.
- Motion.TickBound: this is an upper bound from the 0.2 floor speed, not the exact number of ticks the speed schedule needs.
