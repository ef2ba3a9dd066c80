/**
 The two tap sensors of the sensors sub-HAL (sensors/TapSubHal.cpp): what their guarded fields
 do on activation, on a reported gesture and on each pass of the sub-HAL's thread.
 Times are nanoseconds of the boot clock, which is positive; 0 means "none" as in the source.
 */
module TapSensors {
  import opened Common

  const SENSORS := 2
  const SINGLE := 0
  const DOUBLE := 1
  const EARLY_NS := 1_000_000_000
  const EARLY_DELAY_NS := 300_000_000
  const IDLE_NS := 5 * 60_000_000_000

  /** Whether a wake_gesture value has the bit of a sensor: 1 for the single tap, 2 for the double tap. */
  predicate HasBit(gestures: int, i: int) {
    if i == SINGLE then gestures % 2 == 1 else gestures / 2 % 2 == 1
  }

  predicate HoldsEarly(i: int) {
    i == DOUBLE
  }

  /** One sensor's fields: active, when a held tap was seen, when it goes out, events so far. */
  datatype Sensor = Sensor(want: bool, earlyAt: int, earlyDue: int, reported: nat)
  {
    /** Posts an event, which takes the activation with it. */
    function Fire(): Sensor {
      Sensor(false, 0, 0, reported + 1)
    }
  }

  datatype Stepped = Stepped(sensor: Sensor, fired: bool)

  /** A pass of the thread over one sensor's held tap. */
  function EarlyStep(s: Sensor, normal: bool, now: int): Stepped {
    if !s.want || s.earlyAt == 0 || !normal then
      Stepped(s.(earlyDue := 0, earlyAt := if s.want then 0 else s.earlyAt), false)
    else if s.earlyDue == 0 && now - s.earlyAt > EARLY_NS then
      Stepped(s.(earlyAt := 0), false)
    else
      var due := if s.earlyDue == 0 then now + EARLY_DELAY_NS else s.earlyDue;
      if now - due > EARLY_DELAY_NS then Stepped(s.(earlyAt := 0, earlyDue := 0), false)
      else if now >= due then Stepped(s.Fire(), true)
      else Stepped(s.(earlyDue := due), false)
  }

  /** A gesture the driver reported, for one sensor. */
  function ReportStep(s: Sensor, i: int, gestures: int, normal: bool, now: int): Stepped {
    if !normal || !HasBit(gestures, i) then Stepped(s, false)
    else if s.want then Stepped(s.Fire(), true)
    else if HoldsEarly(i) then Stepped(s.(earlyAt := now, earlyDue := 0), false)
    else Stepped(s, false)
  }

  /** The earliest time a held tap waits for among the first n sensors, or 0. */
  function NextDue(s: seq<Sensor>, n: nat): int
    requires n <= |s|
  {
    if n == 0 then 0
    else
      var rest := NextDue(s, n - 1);
      if s[n - 1].earlyDue != 0 && (rest == 0 || s[n - 1].earlyDue < rest) then s[n - 1].earlyDue else rest
  }

  lemma {:induction false} NextDueFrame(s: seq<Sensor>, t: seq<Sensor>, n: nat)
    requires n <= |s| && n <= |t| && forall i :: 0 <= i < n ==> s[i] == t[i]
    ensures NextDue(s, n) == NextDue(t, n)
  {
    if n > 0 { NextDueFrame(s, t, n - 1); }
  }

  /** The thread never sleeps past a held tap: the next due time is the least of all that wait. */
  lemma {:induction false} NextDueIsLeast(s: seq<Sensor>, n: nat)
    requires n <= |s|
    ensures var d := NextDue(s, n);
            && (d == 0 <==> forall i :: 0 <= i < n ==> s[i].earlyDue == 0)
            && (forall i :: 0 <= i < n && s[i].earlyDue != 0 ==> d <= s[i].earlyDue)
            && (d != 0 ==> exists i :: 0 <= i < n && s[i].earlyDue == d)
  {
    if n > 0 { NextDueIsLeast(s, n - 1); }
  }

  class TapSubHal {
    const wantArmed: array<bool>
    const earlyAt: array<int>
    const earlyDue: array<int>
    const reported: array<nat>
    var normal: bool

    ghost predicate Valid() {
      && wantArmed.Length == SENSORS && earlyAt.Length == SENSORS
      && earlyDue.Length == SENSORS && reported.Length == SENSORS
      && earlyAt != earlyDue
    }

    ghost function SensorAt(i: int): Sensor
      requires Valid() && 0 <= i < SENSORS
      reads this, wantArmed, earlyAt, earlyDue, reported
    {
      Sensor(wantArmed[i], earlyAt[i], earlyDue[i], reported[i])
    }

    ghost function View(): seq<Sensor>
      requires Valid()
      reads this, wantArmed, earlyAt, earlyDue, reported
    {
      [SensorAt(0), SensorAt(1)]
    }

    constructor ()
      ensures Valid() && normal
      ensures View() == [Sensor(false, 0, 0, 0), Sensor(false, 0, 0, 0)]
    {
      wantArmed := new bool[SENSORS](i => false);
      earlyAt := new int[SENSORS](i => 0);
      earlyDue := new int[SENSORS](i => 0);
      reported := new nat[SENSORS](i => 0);
      normal := true;
    }

    /** The sensor service restarts: all sensors inactive, nothing held. */
    method Initialize()
      requires Valid()
      modifies this`normal, wantArmed, earlyAt, earlyDue
      ensures normal
      ensures View() == [Sensor(false, 0, 0, old(reported[0])), Sensor(false, 0, 0, old(reported[1]))]
    {
      for i := 0 to SENSORS
        invariant forall j :: 0 <= j < i ==> !wantArmed[j] && earlyAt[j] == 0 && earlyDue[j] == 0
        invariant reported[..] == old(reported[..])
      {
        wantArmed[i], earlyAt[i], earlyDue[i] := false, 0, 0;
      }
      normal := true;
    }

    /** Index of a sensor handle, or -1. */
    method IndexOf(handle: int) returns (index: int)
      ensures index == if 1 <= handle <= SENSORS then handle - 1 else -1
    {
      for i := 0 to SENSORS
        invariant !(1 <= handle <= i)
      {
        if handle == i + 1 { return i; }
      }
      return -1;
    }

    method Activate(handle: int, enabled: bool) returns (ok: bool)
      requires Valid()
      modifies wantArmed
      ensures ok <==> 1 <= handle <= SENSORS
      ensures View() == if ok then old(View())[handle - 1 := old(View())[handle - 1].(want := enabled)]
                        else old(View())
    {
      var index := IndexOf(handle);
      if index < 0 { return false; }
      wantArmed[index] := enabled;
      return true;
    }

    method Fire(i: int)
      requires Valid() && 0 <= i < SENSORS
      modifies wantArmed, earlyAt, earlyDue, reported
      ensures View() == old(View())[i := old(View())[i].Fire()]
    {
      wantArmed[i] := false;
      reported[i] := reported[i] + 1;
      earlyAt[i] := 0;
      earlyDue[i] := 0;
    }

    /** The loop body of FireEarly: -1 if the tap fired, its due time if it still waits, else 0. */
    method HoldStep(i: int, now: int) returns (waits: int)
      requires Valid() && 0 <= i < SENSORS && now > 0
      modifies wantArmed, earlyAt, earlyDue, reported
      ensures View() == old(View())[i := EarlyStep(old(View())[i], normal, now).sensor]
      ensures waits < 0 <==> EarlyStep(old(View())[i], normal, now).fired
      ensures waits >= 0 ==> waits == Max(View()[i].earlyDue, 0)
    {
      if !wantArmed[i] || earlyAt[i] == 0 || !normal {
        earlyDue[i] := 0;
        if wantArmed[i] { earlyAt[i] := 0; }
        return 0;
      }
      if earlyDue[i] == 0 {
        if now - earlyAt[i] > EARLY_NS {
          earlyAt[i] := 0;
          return 0;
        }
        earlyDue[i] := now + EARLY_DELAY_NS;
      }
      if now - earlyDue[i] > EARLY_DELAY_NS {
        earlyAt[i] := 0;
        earlyDue[i] := 0;
        return 0;
      } else if now >= earlyDue[i] {
        Fire(i);
        return -1;
      }
      return earlyDue[i];
    }

    /** One pass over every held tap; the result is when the thread has to wake for the next one. */
    method FireEarly(now: int) returns (fired: seq<int>, next: int)
      requires Valid() && now > 0
      modifies wantArmed, earlyAt, earlyDue, reported
      ensures forall i :: 0 <= i < SENSORS ==> View()[i] == EarlyStep(old(View())[i], normal, now).sensor
      ensures fired == (if EarlyStep(old(View())[0], normal, now).fired then [0] else [])
                     + (if EarlyStep(old(View())[1], normal, now).fired then [1] else [])
      ensures next == NextDue(View(), SENSORS)
    {
      fired, next := [], 0;
      ghost var before := View();
      for i := 0 to SENSORS
        invariant forall j :: 0 <= j < i ==> View()[j] == EarlyStep(before[j], normal, now).sensor
        invariant forall j :: i <= j < SENSORS ==> View()[j] == before[j]
        invariant fired == (if i > 0 && EarlyStep(before[0], normal, now).fired then [0] else [])
                         + (if i > 1 && EarlyStep(before[1], normal, now).fired then [1] else [])
        invariant next == NextDue(View(), i)
      {
        ghost var s := View();
        var waits := HoldStep(i, now);
        NextDueFrame(s, View(), i);
        if waits == 0 { continue; }
        if waits < 0 {
          fired := fired + [i];
        } else if next == 0 || earlyDue[i] < next {
          next := earlyDue[i];
        }
      }
    }

    /** Gestures seen by the driver: fire the active sensors, hold an early double tap. */
    method Report(gestures: int, now: int) returns (fired: seq<int>)
      requires Valid()
      modifies wantArmed, earlyAt, earlyDue, reported
      ensures forall i :: 0 <= i < SENSORS ==>
                View()[i] == ReportStep(old(View())[i], i, gestures, normal, now).sensor
      ensures fired == (if ReportStep(old(View())[0], 0, gestures, normal, now).fired then [0] else [])
                     + (if ReportStep(old(View())[1], 1, gestures, normal, now).fired then [1] else [])
    {
      fired := [];
      if !normal { return; }
      ghost var before := View();
      for i := 0 to SENSORS
        invariant forall j :: 0 <= j < i ==> View()[j] == ReportStep(before[j], j, gestures, normal, now).sensor
        invariant forall j :: i <= j < SENSORS ==> View()[j] == before[j]
        invariant fired == (if i > 0 && ReportStep(before[0], 0, gestures, normal, now).fired then [0] else [])
                         + (if i > 1 && ReportStep(before[1], 1, gestures, normal, now).fired then [1] else [])
      {
        if !HasBit(gestures, i) { continue; }
        if wantArmed[i] {
          Fire(i);
          fired := fired + [i];
        } else if HoldsEarly(i) {
          earlyAt[i] := now;
          earlyDue[i] := 0;
        }
      }
    }
  }
}
