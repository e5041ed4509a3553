/** The simulation loop's state: the current and target poses and the
    "unreachable" flash countdown, updated by clicks and by ticks. */
module Simulation {
  import opened Kinematics
  import opened Motion

  /** Number of frames the background stays tinted after an unreachable click. */
  const FlashDuration: int := 10

  /** The pose the arm starts in, both as current and as target. */
  const HomePose: Pose := Pose(90.0, 0.0)

  /** An input event as the loop sees it; events of any other kind are ignored. */
  datatype Event = Quit | MouseDown(mx: int, my: int) | Other

  /** The part of the loop's state that input events change. */
  datatype Controls = Controls(target: Pose, flash: int, running: bool)

  /** A click at screen pixel `(mx, my)`: a reachable point becomes the new
      target and clears the flash; an unreachable one keeps the target and
      restarts the flash. */
  function HandleClick(m: Trig, c: Controls, mx: int, my: int): (r: Controls)
    ensures r.running == c.running
    ensures var p := ScreenToArm(mx, my);
      if Reachable(p.0, p.1) then
        r.target == InverseKinematics(m, p.0, p.1).value && r.flash == 0
      else
        r.target == c.target && r.flash == FlashDuration
  {
    var p := ScreenToArm(mx, my);
    match InverseKinematics(m, p.0, p.1)
    case Some(angles) => c.(target := angles, flash := 0)
    case None => c.(flash := FlashDuration)
  }

  /** One event: a quit request stops the loop after the current frame. */
  function HandleEvent(m: Trig, c: Controls, e: Event): (r: Controls)
    ensures r.running <==> c.running && !e.Quit?
    ensures !e.MouseDown? ==> r.target == c.target && r.flash == c.flash
    ensures e.MouseDown? ==> r == HandleClick(m, c, e.mx, e.my)
  {
    match e
    case Quit => c.(running := false)
    case MouseDown(mx, my) => HandleClick(m, c, mx, my)
    case Other => c
  }

  /** All events of one poll, in order. */
  function HandleEvents(m: Trig, c: Controls, events: seq<Event>): (r: Controls)
    ensures r.running ==> c.running
    ensures r.flash == c.flash || r.flash == 0 || r.flash == FlashDuration
    ensures r.target == c.target || exists i :: 0 <= i < |events| && ClickSolves(m, events[i], r.target)
    decreases |events|
  {
    if events == [] then c
    else
      var init := events[..|events| - 1];
      var last := events[|events| - 1];
      var mid := HandleEvents(m, c, init);
      var r := HandleEvent(m, mid, last);
      assert r.target != mid.target ==> ClickSolves(m, events[|events| - 1], r.target);
      assert forall i :: 0 <= i < |init| ==> init[i] == events[i];
      r
  }

  /** `e` is a click whose arm-space point the solver maps to `target`. */
  predicate ClickSolves(m: Trig, e: Event, target: Pose)
  {
    e.MouseDown? &&
    var p := ScreenToArm(e.mx, e.my);
    InverseKinematics(m, p.0, p.1) == Some(target)
  }

  /** The loop keeps running after a poll exactly when it was running and
      the poll held no quit request. */
  lemma {:induction false} RunningUnlessQuit(m: Trig, c: Controls, events: seq<Event>)
    ensures HandleEvents(m, c, events).running <==> c.running && Quit !in events
    decreases |events|
  {
    if events != [] {
      var init := events[..|events| - 1];
      RunningUnlessQuit(m, c, init);
      assert events == init + [events[|events| - 1]];
    }
  }

  /** The flash counter stays within `[0, FlashDuration]` through any poll. */
  lemma {:induction false} FlashInRange(m: Trig, c: Controls, events: seq<Event>)
    requires 0 <= c.flash <= FlashDuration
    ensures 0 <= HandleEvents(m, c, events).flash <= FlashDuration
    decreases |events|
  {
    if events != [] {
      FlashInRange(m, c, events[..|events| - 1]);
    }
  }

  /** A poll without clicks leaves the target and the flash alone. */
  lemma {:induction false} NoClickNoChange(m: Trig, c: Controls, events: seq<Event>)
    requires forall i :: 0 <= i < |events| ==> !events[i].MouseDown?
    ensures HandleEvents(m, c, events).target == c.target
    ensures HandleEvents(m, c, events).flash == c.flash
    decreases |events|
  {
    if events != [] {
      NoClickNoChange(m, c, events[..|events| - 1]);
    }
  }

  /** The last click of a poll decides the flash: cleared when that click
      was reachable, restarted when it was not. */
  lemma {:induction false} LastClickDecidesFlash(m: Trig, c: Controls, pre: seq<Event>, mx: int, my: int, post: seq<Event>)
    requires forall i :: 0 <= i < |post| ==> !post[i].MouseDown?
    ensures var p := ScreenToArm(mx, my);
      HandleEvents(m, c, pre + [MouseDown(mx, my)] + post).flash
        == if Reachable(p.0, p.1) then 0 else FlashDuration
  {
    var mid := HandleEvents(m, c, pre + [MouseDown(mx, my)]);
    assert (pre + [MouseDown(mx, my)])[..|pre|] == pre;
    HandleEventsAppend(m, c, pre + [MouseDown(mx, my)], post);
    NoClickNoChange(m, mid, post);
  }

  /** A reachable last click of a poll decides the target: it is the
      solver's answer for that click, whatever came before. */
  lemma {:induction false} LastClickDecidesTarget(m: Trig, c: Controls, pre: seq<Event>, mx: int, my: int, post: seq<Event>)
    requires forall i :: 0 <= i < |post| ==> !post[i].MouseDown?
    requires Reachable(ScreenToArm(mx, my).0, ScreenToArm(mx, my).1)
    ensures var p := ScreenToArm(mx, my);
      HandleEvents(m, c, pre + [MouseDown(mx, my)] + post).target == InverseKinematics(m, p.0, p.1).value
  {
    var mid := HandleEvents(m, c, pre + [MouseDown(mx, my)]);
    assert (pre + [MouseDown(mx, my)])[..|pre|] == pre;
    HandleEventsAppend(m, c, pre + [MouseDown(mx, my)], post);
    NoClickNoChange(m, mid, post);
  }

  /** Handling two polls one after the other is handling their concatenation. */
  lemma {:induction false} HandleEventsAppend(m: Trig, c: Controls, a: seq<Event>, b: seq<Event>)
    ensures HandleEvents(m, c, a + b) == HandleEvents(m, HandleEvents(m, c, a), b)
    decreases |b|
  {
    if b == [] {
      assert a + b == a;
    } else {
      var bInit := b[..|b| - 1];
      assert (a + b)[..|a + b| - 1] == a + bInit;
      assert (a + b)[|a + b| - 1] == b[|b| - 1];
      HandleEventsAppend(m, c, a, bInit);
    }
  }

  /** The flash countdown of one frame: a positive counter drops by one. */
  function CountDown(f: int): (r: int)
    ensures f >= 0 ==> r >= 0
    ensures f - 1 <= r <= f
    ensures r == f <==> f <= 0
  {
    if f > 0 then f - 1 else f
  }

  /** The counter after `k` frames. */
  function CountDownTimes(f: int, k: nat): (r: int)
    ensures f >= 0 ==> 0 <= r <= f
    ensures f - k <= r <= f
    decreases k
  {
    if k == 0 then f else CountDownTimes(CountDown(f), k - 1)
  }

  /** A counter started at `f >= 0` reads `max(f - k, 0)` after `k` frames:
      it never goes negative, and an unreachable click (`f = FlashDuration`)
      tints exactly the next `FlashDuration` frames. */
  lemma {:induction false} CountDownTimesValue(f: int, k: nat)
    requires f >= 0
    ensures CountDownTimes(f, k) == if k <= f then f - k else 0
    decreases k
  {
    if k > 0 {
      CountDownTimesValue(CountDown(f), k - 1);
    }
  }

  /** The simulator's mutable state. */
  class ArmState {
    const trig: Trig
    var current: Pose
    var target: Pose
    var flash: int

    ghost predicate Valid()
      reads this
    {
      0 <= flash <= FlashDuration
    }

    /** The state at start-up: arm at rest in the home pose, no flash. */
    constructor (m: Trig)
      ensures Valid()
      ensures trig == m
      ensures current == HomePose && target == HomePose && flash == 0
    {
      trig := m;
      current := HomePose;
      target := HomePose;
      flash := 0;
    }

    /** A mouse click at screen pixel `(mx, my)`. */
    method Click(mx: int, my: int)
      requires Valid()
      modifies this
      ensures Valid()
      ensures current == old(current)
      ensures Controls(target, flash, true) == HandleClick(trig, Controls(old(target), old(flash), true), mx, my)
    {
      var p := ScreenToArm(mx, my);
      var angles := InverseKinematics(trig, p.0, p.1);
      if angles.Some? {
        target := angles.value;
        flash := 0;
      } else {
        flash := FlashDuration;
      }
    }

    /** One simulation tick: both joints step toward the target and a
        positive flash counter drops by one. Returns whether this frame's
        background is tinted. */
    method Tick() returns (tinted: bool)
      requires Valid()
      modifies this
      ensures Valid()
      ensures tinted <==> old(flash) > 0
      ensures current == StepPose(old(current), old(target))
      ensures target == old(target)
      ensures flash == CountDown(old(flash))
    {
      var c1, c2 := current.theta1, current.theta2;
      var t1, t2 := target.theta1, target.theta2;
      c1 := StepJoint(c1, t1);
      c2 := StepJoint(c2, t2);
      current := Pose(c1, c2);
      tinted := flash > 0;
      if flash > 0 {
        flash := flash - 1;
      }
    }

    /** One iteration of the main loop: drain the polled events in order,
        then tick. Returns whether the loop goes on and whether the frame
        is tinted. */
    method Frame(events: seq<Event>) returns (running: bool, tinted: bool)
      requires Valid()
      modifies this
      ensures Valid()
      ensures var after := HandleEvents(trig, Controls(old(target), old(flash), true), events);
        running == after.running
        && target == after.target
        && current == StepPose(old(current), after.target)
        && tinted == (after.flash > 0)
        && flash == CountDown(after.flash)
    {
      running := true;
      ghost var start := Controls(target, flash, true);
      var i := 0;
      while i < |events|
        invariant 0 <= i <= |events|
        invariant Valid()
        invariant current == old(current)
        invariant Controls(target, flash, running) == HandleEvents(trig, start, events[..i])
      {
        assert events[..i + 1][..i] == events[..i];
        match events[i] {
          case Quit =>
            running := false;
          case MouseDown(mx, my) =>
            Click(mx, my);
          case Other =>
        }
        i := i + 1;
      }
      assert events[..|events|] == events;
      tinted := Tick();
    }
  }
}
