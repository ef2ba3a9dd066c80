/**
 Every interleaving of SystemUI's activations, the driver's reports and the passes of the
 sub-HAL's thread (sensors/TapSubHal.cpp), with a trace per sensor of what happened to it.
 */
module TapProtocol {
  import opened Common
  import opened TapSensors

  datatype Event =
    | Activated
    | Stopped                                    // activate(false), a restart or a missing touch node
    | Seen(at: int)                              // a gesture while inactive, now held
    | Scheduled(seenAt: int, at: int)
    | Tapped(at: int)                            // posted when the gesture was reported
    | Released(seenAt: int, scheduledAt: int, at: int)   // posted from a held tap
  {
    predicate IsPost() { Tapped? || Released? }
  }

  datatype Step =
    | Tick(ns: nat)
    | Activate(i: int, enabled: bool)
    | GiveUp(i: int)
    | Initialize
    | SetMode(normal: bool)
    | Report(gestures: int)
    | Pass

  datatype Line = Line(sensor: Sensor, trace: seq<Event>)

  datatype World = World(lines: seq<Line>, normal: bool, now: int)

  function Init(now: int): World {
    World([Line(Sensor(false, 0, 0, 0), []), Line(Sensor(false, 0, 0, 0), [])], true, now)
  }

  function Log(l: Line, sensor: Sensor, e: Event): Line {
    Line(sensor, l.trace + [e])
  }

  function Activation(l: Line, enabled: bool): Line {
    Log(l, l.sensor.(want := enabled), if enabled then Activated else Stopped)
  }

  function Reported(l: Line, i: int, gestures: int, normal: bool, now: int): Line {
    var step := ReportStep(l.sensor, i, gestures, normal, now);
    if step.fired then Log(l, step.sensor, Tapped(now))
    else if step.sensor != l.sensor then Log(l, step.sensor, Seen(now))
    else l
  }

  function Passed(l: Line, normal: bool, now: int): Line {
    var s := l.sensor;
    var step := EarlyStep(s, normal, now);
    if step.fired then Log(l, step.sensor, Released(s.earlyAt, s.earlyDue - EARLY_DELAY_NS, now))
    else if s.earlyDue == 0 && step.sensor.earlyDue != 0 then Log(l, step.sensor, Scheduled(s.earlyAt, now))
    else l.(sensor := step.sensor)
  }

  function LineNext(l: Line, i: int, step: Step, normal: bool, now: int): Line {
    match step
    case Tick(_) => l
    case Activate(j, enabled) => if i == j then Activation(l, enabled) else l
    case GiveUp(j) => if i == j then Activation(l, false) else l
    case Initialize => Log(l, Sensor(false, 0, 0, l.sensor.reported), Stopped)
    case SetMode(_) => l
    case Report(gestures) => Reported(l, i, gestures, normal, now)
    case Pass => Passed(l, normal, now)
  }

  function Next(w: World, step: Step): World
    requires |w.lines| == SENSORS
  {
    World([LineNext(w.lines[0], 0, step, w.normal, w.now), LineNext(w.lines[1], 1, step, w.normal, w.now)],
          if step.SetMode? then step.normal else if step.Initialize? then true else w.normal,
          if step.Tick? then w.now + step.ns else w.now)
  }

  function Exec(w: World, steps: seq<Step>): (v: World)
    requires |w.lines| == SENSORS
    ensures |v.lines| == SENSORS
  {
    if steps == [] then w else Next(Exec(w, steps[..|steps| - 1]), steps[|steps| - 1])
  }

  // ------------------------------------------------------------------------
  // What a sensor's trace must satisfy
  // ------------------------------------------------------------------------

  /** The sensor was activated, and neither stopped nor posted an event since. */
  predicate Active(t: seq<Event>) {
    t != [] &&
    var last := t[|t| - 1];
    (last.Activated? || (!last.Stopped? && !last.IsPost() && Active(t[..|t| - 1])))
  }

  predicate Allowed(t: seq<Event>, e: Event, i: int) {
    && (e.IsPost() || e.Scheduled? ==> Active(t))
    && (e.Seen? ==> HoldsEarly(i))
    && (e.Scheduled? ==> Seen(e.seenAt) in t && e.at - e.seenAt <= EARLY_NS)
    && (e.Released? ==>
          && HoldsEarly(i) && Seen(e.seenAt) in t && Scheduled(e.seenAt, e.scheduledAt) in t
          && e.at - e.scheduledAt >= EARLY_DELAY_NS
          && e.at - e.seenAt <= EARLY_NS + 2 * EARLY_DELAY_NS)
  }

  ghost predicate TraceSafe(t: seq<Event>, i: int) {
    forall j {:trigger Allowed(t[..j], t[j], i)} :: 0 <= j < |t| ==> Allowed(t[..j], t[j], i)
  }

  ghost predicate Safe(l: Line, i: int, now: int) {
    var s, t := l.sensor, l.trace;
    && TraceSafe(t, i)
    && (s.want <==> Active(t))
    && (s.earlyAt != 0 ==> HoldsEarly(i) && Seen(s.earlyAt) in t && s.earlyAt <= now)
    && (s.earlyDue != 0 ==>
          && s.earlyAt != 0 && Scheduled(s.earlyAt, s.earlyDue - EARLY_DELAY_NS) in t
          && s.earlyDue - EARLY_DELAY_NS - s.earlyAt <= EARLY_NS)
  }

  lemma LogSafe(l: Line, sensor: Sensor, e: Event, i: int)
    requires TraceSafe(l.trace, i) && Allowed(l.trace, e, i)
    ensures TraceSafe(Log(l, sensor, e).trace, i)
    ensures forall x :: x in Log(l, sensor, e).trace <==> x in l.trace || x == e
    ensures Active(Log(l, sensor, e).trace) <==>
              e.Activated? || (!e.Stopped? && !e.IsPost() && Active(l.trace))
  {
    var u := l.trace + [e];
    forall j | 0 <= j < |u| ensures Allowed(u[..j], u[j], i) {
      assert u[..j] == if j < |l.trace| then l.trace[..j] else l.trace;
    }
    assert u[..|l.trace|] == l.trace;
  }

  lemma PassedSafe(l: Line, i: int, normal: bool, now: int)
    requires Safe(l, i, now) && now > 0
    ensures Safe(Passed(l, normal, now), i, now)
  {
    var s := l.sensor;
    var step := EarlyStep(s, normal, now);
    if step.fired {
      LogSafe(l, step.sensor, Released(s.earlyAt, s.earlyDue - EARLY_DELAY_NS, now), i);
    } else if s.earlyDue == 0 && step.sensor.earlyDue != 0 {
      LogSafe(l, step.sensor, Scheduled(s.earlyAt, now), i);
    }
  }

  lemma ReportedSafe(l: Line, i: int, gestures: int, normal: bool, now: int)
    requires Safe(l, i, now) && now > 0
    ensures Safe(Reported(l, i, gestures, normal, now), i, now)
  {
    var step := ReportStep(l.sensor, i, gestures, normal, now);
    if step.fired {
      LogSafe(l, step.sensor, Tapped(now), i);
    } else if step.sensor != l.sensor {
      LogSafe(l, step.sensor, Seen(now), i);
    }
  }

  lemma LineSafe(l: Line, i: int, step: Step, normal: bool, now: int)
    requires Safe(l, i, now) && now > 0
    ensures Safe(LineNext(l, i, step, normal, now), i, now)
  {
    match step
    case Activate(j, enabled) =>
      LogSafe(l, l.sensor.(want := enabled), if enabled then Activated else Stopped, i);
    case GiveUp(j) => LogSafe(l, l.sensor.(want := false), Stopped, i);
    case Initialize => LogSafe(l, Sensor(false, 0, 0, l.sensor.reported), Stopped, i);
    case Report(gestures) => ReportedSafe(l, i, gestures, normal, now);
    case Pass => PassedSafe(l, i, normal, now);
    case _ =>
  }

  lemma {:induction false} RunSafe(start: int, steps: seq<Step>)
    requires start > 0
    ensures var w := Exec(Init(start), steps);
            w.now > 0 && Safe(w.lines[0], 0, w.now) && Safe(w.lines[1], 1, w.now)
  {
    if steps != [] {
      var v := Exec(Init(start), steps[..|steps| - 1]);
      var step := steps[|steps| - 1];
      RunSafe(start, steps[..|steps| - 1]);
      LineSafe(v.lines[0], 0, step, v.normal, v.now);
      LineSafe(v.lines[1], 1, step, v.normal, v.now);
    }
  }

  lemma {:induction false} ActivatedSince(t: seq<Event>, i: nat)
    requires Active(t) && i < |t| && (t[i].IsPost() || t[i].Stopped?)
    ensures exists k :: i < k < |t| && t[k].Activated?
  {
    var last := |t| - 1;
    if !t[last].Activated? {
      ActivatedSince(t[..last], i);
      var k :| i < k < last && t[..last][k].Activated?;
      assert t[k].Activated?;
    }
  }

  // ------------------------------------------------------------------------
  // The properties of every run
  // ------------------------------------------------------------------------

  /** Each sensor posts at most one event per activation, and none while it is inactive. */
  lemma OneEventPerActivation(start: int, steps: seq<Step>, s: int)
    requires start > 0 && 0 <= s < SENSORS
    ensures
      var t := Exec(Init(start), steps).lines[s].trace;
      && (forall i, j :: 0 <= i < j < |t| && t[j].IsPost() && (t[i].IsPost() || t[i].Stopped?) ==>
            exists k :: i < k < j && t[k].Activated?)
      && (forall j :: 0 <= j < |t| && t[j].IsPost() ==> Active(t[..j]))
  {
    RunSafe(start, steps);
    var t := Exec(Init(start), steps).lines[s].trace;
    assert TraceSafe(t, s);
    forall i, j | 0 <= i < j < |t| && t[j].IsPost() && (t[i].IsPost() || t[i].Stopped?)
      ensures exists k :: i < k < j && t[k].Activated?
    {
      assert Allowed(t[..j], t[j], s);
      ActivatedSince(t[..j], i);
      var k :| i < k < j && t[..j][k].Activated?;
      assert t[k].Activated?;
    }
    forall j | 0 <= j < |t| && t[j].IsPost() ensures Active(t[..j]) {
      assert Allowed(t[..j], t[j], s);
    }
  }

  /**
   Single taps are never held. A held double tap goes out while its sensor is active, at least
   300 ms after it was scheduled and at most 1.6 s after it was seen, and is one that was seen.
   */
  lemma HeldTapsAreRecent(start: int, steps: seq<Step>, s: int, j: nat)
    requires start > 0 && 0 <= s < SENSORS
    requires var t := Exec(Init(start), steps).lines[s].trace; j < |t| && t[j].Released?
    ensures
      var t := Exec(Init(start), steps).lines[s].trace;
      && s == DOUBLE && Active(t[..j])
      && Seen(t[j].seenAt) in t[..j] && Scheduled(t[j].seenAt, t[j].scheduledAt) in t[..j]
      && t[j].at - t[j].scheduledAt >= 300_000_000
      && t[j].at - t[j].seenAt <= 1_600_000_000
  {
    RunSafe(start, steps);
    var t := Exec(Init(start), steps).lines[s].trace;
    assert TraceSafe(t, s);
    assert Allowed(t[..j], t[j], s);
  }

  lemma {:induction false} SingleTapsAreNeverHeld(start: int, steps: seq<Step>)
    requires start > 0
    ensures var l := Exec(Init(start), steps).lines[SINGLE];
            && l.sensor.earlyAt == 0 && l.sensor.earlyDue == 0
            && forall j :: 0 <= j < |l.trace| ==> !l.trace[j].Seen? && !l.trace[j].Released?
  {
    RunSafe(start, steps);
    var t := Exec(Init(start), steps).lines[SINGLE].trace;
    forall j | 0 <= j < |t| ensures !t[j].Seen? && !t[j].Released? {
      assert Allowed(t[..j], t[j], SINGLE);
    }
  }

  // ------------------------------------------------------------------------
  // The thread's arm and idle logic for one gesture
  // ------------------------------------------------------------------------

  /** What a pass of the thread sees: whether its sensor is active, arming works, and low power. */
  datatype Sample = Sample(at: int, want: bool, armOk: bool, lowPower: bool)

  datatype Gesture = Gesture(armed: bool, idleSince: int)

  datatype Pass = Pass(gesture: Gesture, turnedOff: bool, gaveUp: bool)

  function ThreadPass(g: Gesture, x: Sample): Pass {
    var armed := g.armed || (x.want && x.armOk);
    var gaveUp := x.want && !g.armed && !x.armOk;
    if !armed || x.want || !x.lowPower then Pass.Pass(Gesture(armed, 0), false, gaveUp)
    else if g.idleSince == 0 then Pass.Pass(Gesture(armed, x.at), false, gaveUp)
    else if x.at - g.idleSince >= IDLE_NS then Pass.Pass(Gesture(false, 0), true, gaveUp)
    else Pass.Pass(Gesture(armed, g.idleSince), false, gaveUp)
  }

  /** The gesture after the first n passes. */
  function After(g: Gesture, xs: seq<Sample>, n: nat): Gesture
    requires n <= |xs|
  {
    if n == 0 then g else ThreadPass(After(g, xs, n - 1), xs[n - 1]).gesture
  }

  /** The passes from m up to n all saw the gesture on, its sensor inactive and low power. */
  ghost predicate IdleFrom(g: Gesture, xs: seq<Sample>, m: nat, n: nat)
    requires n <= |xs|
  {
    forall k :: m <= k < n ==> After(g, xs, k).armed && !xs[k].want && xs[k].lowPower
  }

  /** An idle time that is set is that of a pass since which the gesture was idle. */
  ghost predicate IdleKnown(g: Gesture, xs: seq<Sample>, n: nat, h: Gesture)
    requires n <= |xs|
  {
    h.idleSince != 0 ==> h.armed && exists m :: 0 <= m < n && xs[m].at == h.idleSince && IdleFrom(g, xs, m, n)
  }

  lemma {:induction false} IdleSinceMeans(g: Gesture, xs: seq<Sample>, n: nat)
    requires n <= |xs| && g.idleSince == 0
    requires forall k :: 0 <= k < |xs| ==> xs[k].at > 0
    ensures IdleKnown(g, xs, n, After(g, xs, n))
  {
    if n > 0 {
      IdleSinceMeans(g, xs, n - 1);
      IdleStep(g, xs, n - 1, After(g, xs, n - 1));
    }
  }

  lemma IdleStep(g: Gesture, xs: seq<Sample>, n: nat, before: Gesture)
    requires n < |xs| && xs[n].at > 0 && before == After(g, xs, n) && IdleKnown(g, xs, n, before)
    ensures IdleKnown(g, xs, n + 1, ThreadPass(before, xs[n]).gesture)
  {
    StillIdle(before, xs[n]);
    if ThreadPass(before, xs[n]).gesture.idleSince != 0 {
      var m: nat := n;
      if before.idleSince != 0 { m :| 0 <= m < n && xs[m].at == before.idleSince && IdleFrom(g, xs, m, n); }
      IdleExtends(g, xs, m, n);
    }
  }

  lemma IdleExtends(g: Gesture, xs: seq<Sample>, m: nat, n: nat)
    requires n < |xs| && IdleFrom(g, xs, m, n) && After(g, xs, n).armed && !xs[n].want && xs[n].lowPower
    ensures IdleFrom(g, xs, m, n + 1)
  {
    forall k | m <= k < n + 1 ensures After(g, xs, k).armed && !xs[k].want && xs[k].lowPower {
      if k < n { assert After(g, xs, k).armed; }
    }
  }

  /** A pass that leaves a gesture idle saw it on and unwanted in low power, and keeps or starts its time. */
  lemma StillIdle(before: Gesture, x: Sample)
    requires x.at > 0
    ensures var h := ThreadPass(before, x).gesture;
      h.idleSince != 0 ==>
        && h.armed && before.armed && !x.want && x.lowPower
        && h.idleSince == if before.idleSince == 0 then x.at else before.idleSince
  {
  }

  /**
   A gesture is turned off only after five minutes in which every pass saw it on, its sensor
   inactive and the controller in low power; and an active sensor's gesture is on after the pass
   unless the pass gave up on it.
   */
  lemma OffOnlyWhenIdle(g: Gesture, xs: seq<Sample>, n: nat)
    requires n < |xs| && g.idleSince == 0
    requires forall k :: 0 <= k < |xs| ==> xs[k].at > 0
    ensures
      var p := ThreadPass(After(g, xs, n), xs[n]);
      && (p.turnedOff ==>
            exists m :: 0 <= m < n && xs[n].at - xs[m].at >= IDLE_NS && IdleFrom(g, xs, m, n + 1))
      && (xs[n].want && !p.gaveUp ==> p.gesture.armed && !p.turnedOff)
  {
    var h := After(g, xs, n);
    IdleSinceMeans(g, xs, n);
    PassMeans(h, xs[n]);
    if ThreadPass(h, xs[n]).turnedOff {
      var m :| 0 <= m < n && xs[m].at == h.idleSince && IdleFrom(g, xs, m, n);
      IdleExtends(g, xs, m, n);
    }
  }

  lemma PassMeans(h: Gesture, x: Sample)
    requires h.idleSince != 0 ==> h.armed
    ensures var p := ThreadPass(h, x);
      && (p.turnedOff ==> h.idleSince != 0 && h.armed && x.at - h.idleSince >= IDLE_NS && !x.want && x.lowPower)
      && (x.want && !p.gaveUp ==> p.gesture.armed && !p.turnedOff)
  {
  }
}
