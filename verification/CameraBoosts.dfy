/**
 The planner together with the power HAL it drives (power/libqti-perfd-client/camera_hints.cpp).

 The HAL only ever extends a running boost, unless it is cancelled. Camera threads change the
 request table at any time; the worker plans under the lock and sends afterwards, one call at a
 time, at most `delay` after the plan. A call may fail: then the worker forgets what it sent.
 */
module CameraBoosts {
  import opened Common
  import opened CameraHints

  datatype World = World(
    table: seq<Request>,
    sent: seq<int>,
    dirty: bool,
    now: int,
    // The calls of the running plan that are still to be sent, and when it was made.
    pending: seq<Action>,
    planAt: int,
    failures: nat,
    // When the HAL ends each boost.
    ends: seq<int>,
    // False after a failed plan, until a plan succeeds.
    synced: bool,
    // No boost started before the last failure can run past this time.
    slack: int)

  datatype Step =
    | Pass(ns: nat)
    | AcquireHint(handle: int, hint: int, durationMs: int, at: int)
    | ReleaseHint(handle: int)
    | MakePlan
    | SendNext(ok: bool)

  predicate IsBoost(b: int) {
    0 <= b < BOOST_COUNT
  }

  /** libperfmgr: a cancel ends the boost now, a duration only ever extends it. */
  function SetBoost(end: int, durationMs: int, now: int): int {
    if durationMs < 0 then Min(end, now) else Max(end, now + durationMs * MS)
  }

  ghost predicate Init(w: World) {
    && |w.table| == MAX_REQUESTS && (forall i :: 0 <= i < |w.table| ==> w.table[i] == Request(0, 0, 0))
    && w.sent == [0, 0] && w.now >= 0 && !w.dirty && w.pending == [] && w.planAt == 0 && w.failures == 0
    && |w.ends| == BOOST_COUNT && w.ends[0] <= w.now && w.ends[1] <= w.now && w.synced && w.slack == 0
  }

  function Planned(w: World): World
    requires |w.sent| == BOOST_COUNT && w.now >= 0
  {
    var plan := PlanFrom(w.table, w.sent, w.now, BOOST_COUNT);
    w.(dirty := false, planAt := w.now, synced := true, pending := plan,
       failures := if plan == [] then 0 else w.failures,
       table := Expire(w.table, w.now),
       sent := [Want(w.table, 0, w.now), Want(w.table, 1, w.now)])
  }

  function Delivered(w: World): World
    requires w.pending != [] && IsBoost(w.pending[0].boost) && |w.ends| == BOOST_COUNT
  {
    var a := w.pending[0];
    w.(pending := w.pending[1..], ends := w.ends[a.boost := SetBoost(w.ends[a.boost], a.durationMs, w.now)],
       failures := if |w.pending| == 1 then 0 else w.failures)
  }

  /** The worker does not know what the HAL runs, and retries once. */
  function Failed(w: World): World {
    w.(pending := [], sent := [0, 0], failures := w.failures + 1, synced := false,
       dirty := w.dirty || w.failures == 0,
       slack := w.now + MAX_TIMED_MS * MS)
  }

  ghost predicate Next(w: World, w': World, step: Step, delay: nat) {
    match step
    case Pass(ns) => w' == w.(now := w.now + ns)
    case AcquireHint(handle, hint, durationMs, at) =>
      && 0 <= at <= w.now
      && var b := BoostForHint(hint);
         if b < 0
         then Released(w.table, handle, w'.table)
              && w' == w.(table := w'.table, dirty := w.dirty || w'.table != w.table)
         else (exists result ::
                 && Acquired(w.table, handle, b, durationMs, at, w'.table, result)
                 && w' == w.(table := w'.table, dirty := w.dirty || result != 0))
    case ReleaseHint(handle) =>
      && Released(w.table, handle, w'.table)
      && w' == w.(table := w'.table, dirty := w.dirty || w'.table != w.table)
    case MakePlan =>
      w.dirty && w.pending == [] && |w.sent| == BOOST_COUNT && w.now >= 0 && w' == Planned(w)
    case SendNext(ok) =>
      && w.pending != [] && IsBoost(w.pending[0].boost) && |w.ends| == BOOST_COUNT
      && w.now <= w.planAt + delay
      && w' == if ok then Delivered(w) else Failed(w)
  }

  // ------------------------------------------------------------------------
  // The invariant
  // ------------------------------------------------------------------------

  function Slop(delay: nat): int {
    MS + delay
  }

  /** The calls of a plan that concern one boost, in order. */
  function Calls(acts: seq<Action>, b: int): seq<int> {
    if acts == [] then []
    else (if acts[0].boost == b then [acts[0].durationMs] else []) + Calls(acts[1..], b)
  }

  /** An end the HAL may have when told to run to `sent` (0: nothing), with nothing left to send. */
  ghost predicate InLine(end: int, sent: int, now: int, slack: int, delay: nat) {
    if sent == 0 then end < Max(now, slack) + Slop(delay)
    else sent <= end < Max(sent, slack) + Slop(delay)
  }

  /** With a start still to be sent: it will end up in line. */
  ghost predicate WillBeInLine(end: int, sent: int, planAt: int, ms: int, slack: int, delay: nat) {
    && sent > planAt && ms == MsUntil(sent, planAt)
    && end < Max(sent, slack) + Slop(delay)
  }

  ghost predicate OnTrack(calls: seq<int>, end: int, sent: int, planAt: int, now: int, slack: int, delay: nat) {
    || (calls == [] && InLine(end, sent, now, slack, delay))
    || (calls == [-1] && sent == 0)
    || (|calls| == 1 && WillBeInLine(end, sent, planAt, calls[0], slack, delay))
    || (|calls| == 2 && calls[0] == -1 && sent > planAt && calls[1] == MsUntil(sent, planAt))
  }

  ghost predicate BoostOk(w: World, b: int, delay: nat)
    requires IsBoost(b) && |w.sent| == BOOST_COUNT && |w.ends| == BOOST_COUNT
  {
    OnTrack(Calls(w.pending, b), w.ends[b], w.sent[b], w.planAt, w.now, w.slack, delay)
  }

  /** While no change waits, the latest live deadline of each boost is the one that was sent. */
  ghost predicate TableSent(w: World, b: int)
    requires IsBoost(b) && |w.sent| == BOOST_COUNT
  {
    !w.dirty && w.synced ==> Want(w.table, b, w.now) == if w.sent[b] > w.now then w.sent[b] else 0
  }

  ghost predicate Bounded(w: World) {
    && (forall i :: 0 <= i < |w.table| ==>
          0 <= w.table[i].boost < BOOST_COUNT && w.table[i].deadline <= w.now + MAX_TIMED_MS * MS)
    && (forall i :: 0 <= i < |w.pending| ==>
          IsBoost(w.pending[i].boost)
          && (w.pending[i].durationMs == -1 || 1 <= w.pending[i].durationMs <= MAX_TIMED_MS))
  }

  ghost predicate Inv(w: World, delay: nat) {
    && |w.sent| == BOOST_COUNT && |w.ends| == BOOST_COUNT && 0 <= w.planAt <= w.now
    && |w.table| == MAX_REQUESTS && DistinctHandles(w.table)
    && |w.pending| <= 2 * BOOST_COUNT
    && Bounded(w)
    && (forall b :: IsBoost(b) ==> w.ends[b] <= w.now + MAX_TIMED_MS * MS)
    && (forall b :: IsBoost(b) ==> BoostOk(w, b, delay))
    && (forall b :: IsBoost(b) ==> TableSent(w, b))
    && (forall b :: IsBoost(b) ==> w.sent[b] == 0 || 0 < w.sent[b])
  }

  // ------------------------------------------------------------------------
  // Preservation
  // ------------------------------------------------------------------------

  lemma {:induction false} CallsConcat(a: seq<Action>, c: seq<Action>, b: int)
    ensures Calls(a + c, b) == Calls(a, b) + Calls(c, b)
  {
    if a == [] {
      assert a + c == c;
    } else {
      assert (a + c)[1..] == a[1..] + c;
      CallsConcat(a[1..], c, b);
    }
  }

  lemma PlanCalls(w: World, b: int)
    requires |w.sent| == BOOST_COUNT && w.now >= 0 && IsBoost(b)
    requires forall x :: IsBoost(x) ==> Want(w.table, x, w.now) == 0 || Want(w.table, x, w.now) > w.now
    ensures Calls(PlanFrom(w.table, w.sent, w.now, BOOST_COUNT), b)
         == Calls(PlanBoost(b, Want(w.table, b, w.now), w.sent[b], w.now), b)
  {
    var p0 := PlanBoost(0, Want(w.table, 0, w.now), w.sent[0], w.now);
    var p1 := PlanBoost(1, Want(w.table, 1, w.now), w.sent[1], w.now);
    assert PlanFrom(w.table, w.sent, w.now, 1) == [] + p0;
    assert PlanFrom(w.table, w.sent, w.now, 2) == p0 + p1;
    CallsConcat(p0, p1, b);
    OtherCalls(0, Want(w.table, 0, w.now), w.sent[0], w.now, b);
    OtherCalls(1, Want(w.table, 1, w.now), w.sent[1], w.now, b);
  }

  lemma OtherCalls(b: int, want: int, sent: int, now: int, x: int)
    requires want == 0 || want > now
    ensures var p := PlanBoost(b, want, sent, now);
            && (x != b ==> Calls(p, x) == [])
            && |p| <= 2 && (forall i :: 0 <= i < |p| ==> p[i].boost == b)
            && (x == b ==> |Calls(p, x)| == |p| && forall i :: 0 <= i < |p| ==> Calls(p, x)[i] == p[i].durationMs)
  {
    var p := PlanBoost(b, want, sent, now);
    if |p| == 2 {
      var q := p[1..];
      assert q == [p[1]] && q[1..] == [];
      assert Calls(q, x) == if b == x then [p[1].durationMs] else [];
    } else if |p| == 1 {
      assert p[1..] == [];
    }
  }

  lemma WantFacts(w: World, delay: nat)
    requires Inv(w, delay)
    ensures forall b :: IsBoost(b) ==>
              var d := Want(w.table, b, w.now); d == 0 || w.now < d <= w.now + MAX_TIMED_MS * MS
  {
    forall b | IsBoost(b)
      ensures var d := Want(w.table, b, w.now); d == 0 || w.now < d <= w.now + MAX_TIMED_MS * MS
    {
      WantIsLatest(w.table, b, w.now);
    }
  }

  /** One boost's plan, applied to an end that was in line, ends up in line. */
  lemma PlanBoostOk(w: World, b: int, delay: nat)
    requires Inv(w, delay) && w.pending == [] && IsBoost(b)
    ensures BoostOk(Planned(w), b, delay)
  {
    WantFacts(w, delay);
    PlanCalls(w, b);
    var want := Want(w.table, b, w.now);
    OtherCalls(b, want, w.sent[b], w.now, b);
    assert Planned(w).sent[b] == want;
    assert InLine(w.ends[b], w.sent[b], w.now, w.slack, delay);
  }

  lemma PlanBounded(w: World, delay: nat)
    requires Inv(w, delay)
    ensures Bounded(Planned(w)) && |Planned(w).pending| <= 2 * BOOST_COUNT
  {
    WantFacts(w, delay);
    var p0 := PlanBoost(0, Want(w.table, 0, w.now), w.sent[0], w.now);
    var p1 := PlanBoost(1, Want(w.table, 1, w.now), w.sent[1], w.now);
    OtherCalls(0, Want(w.table, 0, w.now), w.sent[0], w.now, 0);
    OtherCalls(1, Want(w.table, 1, w.now), w.sent[1], w.now, 1);
    assert PlanFrom(w.table, w.sent, w.now, 1) == [] + p0;
    assert PlanFrom(w.table, w.sent, w.now, 2) == p0 + p1;
  }

  lemma PlanOk(w: World, delay: nat)
    requires Inv(w, delay) && w.pending == [] && w.dirty
    ensures Inv(Planned(w), delay)
  {
    var v := Planned(w);
    PlanBounded(w, delay);
    WantFacts(w, delay);
    forall b | IsBoost(b) ensures BoostOk(v, b, delay) && TableSent(v, b) {
      PlanBoostOk(w, b, delay);
      ExpireKeepsWant(w.table, b, w.now, w.now);
    }
  }

  /** Sending the next call of a boost keeps it on track. */
  lemma CallOnTrack(calls: seq<int>, end: int, sent: int, planAt: int, now: int, slack: int, delay: nat)
    requires OnTrack(calls, end, sent, planAt, now, slack, delay) && calls != []
    requires 0 <= planAt <= now <= planAt + delay
    ensures OnTrack(calls[1..], SetBoost(end, calls[0], now), sent, planAt, now, slack, delay)
  {
    if |calls| == 1 {
      assert calls[1..] == [];
    } else {
      assert calls[1..] == [calls[1]];
    }
  }

  lemma DeliverOk(w: World, delay: nat)
    requires Inv(w, delay) && w.pending != [] && w.now <= w.planAt + delay
    ensures Inv(Delivered(w), delay)
  {
    var v := Delivered(w);
    var a := w.pending[0];
    forall b | IsBoost(b) ensures BoostOk(v, b, delay) && TableSent(v, b) {
      assert Calls(w.pending, b) == (if a.boost == b then [a.durationMs] else []) + Calls(v.pending, b);
      assert BoostOk(w, b, delay) && TableSent(w, b);
      if a.boost == b {
        assert Calls(w.pending, b)[1..] == Calls(v.pending, b);
        CallOnTrack(Calls(w.pending, b), w.ends[b], w.sent[b], w.planAt, w.now, w.slack, delay);
      } else {
        assert Calls(w.pending, b) == Calls(v.pending, b);
      }
    }
  }

  lemma FailOk(w: World, delay: nat)
    requires Inv(w, delay)
    ensures Inv(Failed(w), delay)
  {
  }

  lemma PassOk(w: World, ns: nat, delay: nat)
    requires Inv(w, delay)
    ensures Inv(w.(now := w.now + ns), delay)
  {
    var v := w.(now := w.now + ns);
    forall b | IsBoost(b) ensures BoostOk(v, b, delay) && TableSent(v, b) {
      assert BoostOk(w, b, delay) && TableSent(w, b);
      LatestExpiresLast(w.table, b, w.now, v.now);
    }
  }

  /** A table change keeps the invariant if it marks the plan dirty or asks for the same. */
  lemma TableOk(w: World, w': World, delay: nat)
    requires Inv(w, delay)
    requires w' == w.(table := w'.table, dirty := w'.dirty) && (w.dirty ==> w'.dirty)
    requires |w'.table| == MAX_REQUESTS && DistinctHandles(w'.table) && Bounded(w')
    requires w'.dirty || forall b :: IsBoost(b) ==> Want(w'.table, b, w.now) == Want(w.table, b, w.now)
    ensures Inv(w', delay)
  {
    forall b | IsBoost(b) ensures BoostOk(w', b, delay) && TableSent(w', b) {
      assert BoostOk(w, b, delay) && TableSent(w, b);
    }
  }

  lemma AcquireOk(w: World, w': World, handle: int, b: int, durationMs: int, at: int, result: int, delay: nat)
    requires Inv(w, delay) && 0 <= at <= w.now && IsBoost(b)
    requires Acquired(w.table, handle, b, durationMs, at, w'.table, result)
    requires w' == w.(table := w'.table, dirty := w.dirty || result != 0)
    ensures Inv(w', delay)
  {
    if result == 0 {
      forall x | IsBoost(x) ensures Want(w'.table, x, w.now) == Want(w.table, x, w.now) {
        ExpireKeepsWant(w.table, x, at, w.now);
      }
    }
    TableOk(w, w', delay);
  }

  lemma NextOk(w: World, w': World, step: Step, delay: nat)
    requires Inv(w, delay) && Next(w, w', step, delay)
    ensures Inv(w', delay)
    ensures step != SendNext(false) ==> w'.slack == w.slack
  {
    match step
    case Pass(ns) => PassOk(w, ns, delay);
    case AcquireHint(handle, hint, durationMs, at) =>
      var b := BoostForHint(hint);
      if b < 0 {
        TableOk(w, w', delay);
      } else {
        var result :| && Acquired(w.table, handle, b, durationMs, at, w'.table, result)
                      && w' == w.(table := w'.table, dirty := w.dirty || result != 0);
        AcquireOk(w, w', handle, b, durationMs, at, result, delay);
      }
    case ReleaseHint(handle) => TableOk(w, w', delay);
    case MakePlan => PlanOk(w, delay);
    case SendNext(ok) => if ok { DeliverOk(w, delay); } else { FailOk(w, delay); }
  }

  ghost predicate IsRun(ws: seq<World>, steps: seq<Step>, delay: nat) {
    && |ws| == |steps| + 1 && Init(ws[0])
    && forall i :: 0 <= i < |steps| ==> Next(ws[i], ws[i + 1], steps[i], delay)
  }

  lemma InitOk(w: World, delay: nat)
    requires Init(w)
    ensures Inv(w, delay)
  {
    forall b | IsBoost(b) ensures TableSent(w, b) {
      NoRequests(w.table, b, w.now);
    }
  }

  lemma {:induction false} NoRequests(t: seq<Request>, b: int, now: int)
    requires forall i :: 0 <= i < |t| ==> t[i].handle == 0
    ensures Want(t, b, now) == 0
  {
    if t != [] { NoRequests(t[..|t| - 1], b, now); }
  }

  lemma {:induction false} RunOk(ws: seq<World>, steps: seq<Step>, delay: nat, n: nat)
    requires IsRun(ws, steps, delay) && n <= |steps|
    ensures Inv(ws[n], delay)
    ensures SendNext(false) !in steps ==> ws[n].slack == 0
  {
    if n == 0 {
      InitOk(ws[0], delay);
    } else {
      RunOk(ws, steps, delay, n - 1);
      NextOk(ws[n - 1], ws[n], steps[n - 1], delay);
      assert steps[n - 1] in steps;
    }
  }

  // ------------------------------------------------------------------------
  // The properties of every run
  // ------------------------------------------------------------------------

  /**
   Whenever no change waits and the last plan was sent, the HAL ends each boost at the latest live
   deadline, less than a millisecond and the send delay late, or within that time from now if no
   request is live. Only a boost from before a failed call can last longer, at most five seconds
   from the failure.
   */
  lemma HalFollowsRequests(ws: seq<World>, steps: seq<Step>, delay: nat, n: nat, b: int)
    requires IsRun(ws, steps, delay) && n <= |steps| && IsBoost(b)
    requires ws[n].pending == [] && !ws[n].dirty && ws[n].synced
    ensures |ws[n].ends| == BOOST_COUNT
    ensures var w := ws[n];
            && (forall d :: IsLatest(w.table, b, w.now, d) ==> d <= w.ends[b] < Max(d, w.slack) + MS + delay)
            && (NoneLive(w.table, b, w.now) ==> w.ends[b] < Max(w.now, w.slack) + MS + delay)
            && (SendNext(false) !in steps ==> w.slack == 0)
  {
    RunOk(ws, steps, delay, n);
    var w := ws[n];
    WantIsLatest(w.table, b, w.now);
    assert BoostOk(w, b, delay) && TableSent(w, b);
  }

  /** Without failed calls, the boost runs to the latest live deadline and not a millisecond more. */
  lemma HalIsExact(ws: seq<World>, steps: seq<Step>, n: nat, b: int, d: int)
    requires IsRun(ws, steps, 0) && n <= |steps| && IsBoost(b) && SendNext(false) !in steps
    requires ws[n].pending == [] && !ws[n].dirty
    requires IsLatest(ws[n].table, b, ws[n].now, d)
    ensures |ws[n].ends| == BOOST_COUNT && d <= ws[n].ends[b] < d + MS
  {
    StaysSynced(ws, steps, n);
    RunOk(ws, steps, 0, n);
    HalFollowsRequests(ws, steps, 0, n, b);
  }

  lemma {:induction false} StaysSynced(ws: seq<World>, steps: seq<Step>, n: nat)
    requires IsRun(ws, steps, 0) && n <= |steps| && SendNext(false) !in steps
    ensures ws[n].synced
  {
    if n > 0 {
      StaysSynced(ws, steps, n - 1);
      assert steps[n - 1] in steps;
      assert Next(ws[n - 1], ws[n], steps[n - 1], 0);
    }
  }

  /**
   In every state of every run, also with failing calls: live handles are distinct and valid, a
   plan has at most two calls per boost, each call is a cancel or lasts 1 to 5000 ms, and the
   HAL ends every boost within five seconds on its own.
   */
  lemma HandlesAndDurations(ws: seq<World>, steps: seq<Step>, delay: nat, n: nat)
    requires IsRun(ws, steps, delay) && n <= |steps|
    ensures var w := ws[n];
            && DistinctHandles(w.table)
            && |w.pending| <= 2 * BOOST_COUNT
            && (forall i :: 0 <= i < |w.pending| ==>
                  w.pending[i].durationMs == -1 || 1 <= w.pending[i].durationMs <= MAX_TIMED_MS)
            && |w.ends| == BOOST_COUNT
            && (forall x :: IsBoost(x) ==> w.ends[x] <= w.now + MAX_TIMED_MS * MS)
  {
    RunOk(ws, steps, delay, n);
  }
}
