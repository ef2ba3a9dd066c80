/**
 The camera boost planner (power/libqti-perfd-client/camera_hints.cpp): the request table, the
 handles it gives out and the calls that bring the power HAL in line with it.
 Times are nanoseconds of the monotonic clock, as in the source.
 */
module CameraHints {
  import opened Common

  const HINT_CAMERA_OPEN := 0x1337
  const HINT_CAMERA_CLOSE := 0x1338
  const HINT_CAMERA_SNAPSHOT := 0x1339
  const MAX_TIMED_MS := 5000
  const MAX_HOLD_MS := 2000
  const FIRST_HANDLE := 0x10000
  const INT_MAX := 0x7fff_ffff
  const MAX_REQUESTS := 32
  const LAUNCH := 0
  const SHOT := 1
  const BOOST_COUNT := 2
  const MS := 1_000_000

  datatype Request = Request(handle: int, boost: int, deadline: int)

  /** A setBoost call. A duration of -1 cancels the boost. */
  datatype Action = Action(boost: int, durationMs: int)

  type Table = t: seq<Request> | |t| == MAX_REQUESTS witness seq(MAX_REQUESTS, i => Request(0, 0, 0))

  predicate IsLive(r: Request, now: int) {
    r.handle != 0 && r.deadline > now
  }

  function BoostForHint(hint: int): int {
    if hint == HINT_CAMERA_OPEN || hint == HINT_CAMERA_CLOSE then LAUNCH
    else if hint == HINT_CAMERA_SNAPSHOT then SHOT
    else -1
  }

  function DurationMs(requested: int): int {
    if requested > 0 then Min(requested, MAX_TIMED_MS) else MAX_HOLD_MS
  }

  /** Rounded up to whole milliseconds, and never 0, which the HAL takes for its default. */
  function MsUntil(deadline: int, now: int): (ms: int)
    requires deadline > now
    ensures ms >= 1 && deadline <= now + ms * MS < deadline + MS
  {
    var ms := (deadline - now + 999_999) / MS;
    if ms < 1 then 1 else ms
  }

  // ------------------------------------------------------------------------
  // Handles
  // ------------------------------------------------------------------------

  function NextCandidate(handle: int): int {
    if handle == INT_MAX then FIRST_HANDLE else handle + 1
  }

  predicate InUse(t: seq<Request>, handle: int) {
    exists i :: 0 <= i < |t| && t[i].handle == handle
  }

  /** The k-th candidate from a starting handle, around the end of the range. */
  function Candidate(start: int, k: nat): int {
    if k == 0 then start else NextCandidate(Candidate(start, k - 1))
  }

  /** `handle` is the first candidate from the counter that no request uses, and the counter ends behind it. */
  ghost predicate IsFresh(t: seq<Request>, counter: int, handle: int, after: int) {
    exists k: nat {:trigger Candidate(counter, k)} ::
      && handle == Candidate(counter, k) && !InUse(t, handle) && after == NextCandidate(handle)
      && forall j: nat :: j < k ==> InUse(t, Candidate(counter, j))
  }

  predicate HasFreeSlot(t: seq<Request>) {
    exists i :: 0 <= i < |t| && t[i].handle == 0
  }

  predicate ValidHandle(h: int) {
    FIRST_HANDLE <= h <= INT_MAX
  }

  lemma {:induction false} CandidateValue(start: int, k: nat)
    requires ValidHandle(start) && k <= MAX_REQUESTS
    ensures Candidate(start, k) ==
            if start + k <= INT_MAX then start + k else start + k - INT_MAX - 1 + FIRST_HANDLE
    ensures ValidHandle(Candidate(start, k))
  {
    if k > 0 { CandidateValue(start, k - 1); }
  }

  ghost function HandlesOf(t: seq<Request>, n: nat): set<int>
    requires n <= |t|
  {
    set i | 0 <= i < n :: t[i].handle
  }

  lemma {:induction false} HandlesBound(t: seq<Request>, n: nat)
    requires n <= |t|
    ensures |HandlesOf(t, n)| <= n
  {
    if n == 0 {
      assert HandlesOf(t, 0) == {};
    } else {
      HandlesBound(t, n - 1);
      assert HandlesOf(t, n) == HandlesOf(t, n - 1) + {t[n - 1].handle};
    }
  }

  ghost function Candidates(start: int, k: nat): set<int> {
    set j | 0 <= j < k :: Candidate(start, j)
  }

  lemma {:induction false} CandidatesCount(start: int, k: nat)
    requires ValidHandle(start) && k <= MAX_REQUESTS
    ensures |Candidates(start, k)| == k
  {
    if k == 0 {
      assert Candidates(start, 0) == {};
    } else {
      CandidatesCount(start, k - 1);
      var last := Candidate(start, k - 1);
      forall j | 0 <= j < k - 1 ensures Candidate(start, j) != last {
        CandidateValue(start, j);
        CandidateValue(start, k - 1);
      }
      assert Candidates(start, k) == Candidates(start, k - 1) + {last};
      assert last !in Candidates(start, k - 1);
    }
  }

  /** With a free slot, the first 32 candidates cannot all be in use. */
  lemma SomeCandidateFree(t: Table, start: int, k: nat, free: nat)
    requires ValidHandle(start) && free < |t| && t[free].handle == 0
    requires k <= MAX_REQUESTS
    requires forall j :: 0 <= j < k ==> InUse(t, Candidate(start, j))
    ensures k < MAX_REQUESTS
  {
    var s, all := Candidates(start, k), HandlesOf(t, |t|);
    CandidatesCount(start, k);
    HandlesBound(t, |t|);
    assert t[free].handle in all;
    forall h | h in s ensures h in all - {0} {
      var j :| 0 <= j < k && h == Candidate(start, j);
      CandidateValue(start, j);
      assert InUse(t, Candidate(start, j));
    }
    var rest := all - {0} - s;
    assert all - {0} == s + rest;
    assert |all - {0}| == |all| - 1;
  }

  ghost predicate DistinctHandles(t: seq<Request>) {
    && (forall i :: 0 <= i < |t| ==> t[i].handle == 0 || ValidHandle(t[i].handle))
    && (forall i, j :: 0 <= i < j < |t| && t[i].handle != 0 ==> t[i].handle != t[j].handle)
  }

  // ------------------------------------------------------------------------
  // What the table asks for
  // ------------------------------------------------------------------------

  /** The latest live deadline of a boost, or 0. */
  function Want(t: seq<Request>, b: int, now: int): int {
    if t == [] then 0
    else
      var r := t[|t| - 1];
      var rest := Want(t[..|t| - 1], b, now);
      if IsLive(r, now) && r.boost == b && r.deadline > rest then r.deadline else rest
  }

  /** d is the deadline a boost must run to, by definition instead of by scanning. */
  ghost predicate IsLatest(t: seq<Request>, b: int, now: int, d: int) {
    && (exists i :: 0 <= i < |t| && IsLive(t[i], now) && t[i].boost == b && t[i].deadline == d)
    && (forall i :: 0 <= i < |t| && IsLive(t[i], now) && t[i].boost == b ==> t[i].deadline <= d)
  }

  ghost predicate NoneLive(t: seq<Request>, b: int, now: int) {
    forall i :: 0 <= i < |t| && IsLive(t[i], now) ==> t[i].boost != b
  }

  lemma {:induction false} WantIsLatest(t: seq<Request>, b: int, now: int)
    requires now >= 0
    ensures Want(t, b, now) == 0 ==> NoneLive(t, b, now)
    ensures Want(t, b, now) != 0 ==> Want(t, b, now) > now && IsLatest(t, b, now, Want(t, b, now))
  {
    if t != [] {
      var u := t[..|t| - 1];
      WantIsLatest(u, b, now);
      assert forall i :: 0 <= i < |u| ==> u[i] == t[i];
      var r := t[|t| - 1];
      if IsLive(r, now) && r.boost == b && r.deadline > Want(u, b, now) {
        assert t[|t| - 1].deadline == Want(t, b, now);
      }
    }
  }

  /** The latest deadline expires last: time alone either keeps it or leaves nothing live. */
  lemma {:induction false} LatestExpiresLast(t: seq<Request>, b: int, now: int, later: int)
    requires 0 <= now <= later
    ensures Want(t, b, later) == if Want(t, b, now) > later then Want(t, b, now) else 0
  {
    WantIsLatest(t, b, now);
    WantIsLatest(t, b, later);
    var d, e := Want(t, b, now), Want(t, b, later);
    if e != 0 {
      var i :| 0 <= i < |t| && IsLive(t[i], later) && t[i].boost == b && t[i].deadline == e;
      assert IsLive(t[i], now);
    }
    if d > later {
      var i :| 0 <= i < |t| && IsLive(t[i], now) && t[i].boost == b && t[i].deadline == d;
      assert IsLive(t[i], later);
    }
  }

  function Expired(r: Request, now: int): Request {
    if r.handle != 0 && r.deadline <= now then r.(handle := 0) else r
  }

  function Expire(t: seq<Request>, now: int): (u: seq<Request>)
    ensures |u| == |t| && forall i :: 0 <= i < |t| ==> u[i] == Expired(t[i], now)
  {
    seq(|t|, i requires 0 <= i < |t| => Expired(t[i], now))
  }

  /** Clearing what has expired asks for nothing new. */
  lemma {:induction false} ExpireKeepsWant(t: seq<Request>, b: int, at: int, now: int)
    requires at <= now
    ensures Want(Expire(t, at), b, now) == Want(t, b, now)
  {
    if t != [] {
      assert Expire(t, at)[..|t| - 1] == Expire(t[..|t| - 1], at);
      ExpireKeepsWant(t[..|t| - 1], b, at, now);
    }
  }

  // ------------------------------------------------------------------------
  // The plan
  // ------------------------------------------------------------------------

  /** The calls for one boost. */
  function PlanBoost(b: int, want: int, sent: int, now: int): seq<Action>
    requires want == 0 || want > now
  {
    var running := sent > now;
    if want == 0 then (if running then [Action(b, -1)] else [])
    else if running && want == sent then []
    else if running && want < sent then [Action(b, -1), Action(b, MsUntil(want, now))]
    else [Action(b, MsUntil(want, now))]
  }

  function PlanFrom(t: seq<Request>, sent: seq<int>, now: int, n: nat): seq<Action>
    requires |sent| == BOOST_COUNT && n <= BOOST_COUNT && now >= 0
  {
    if n == 0 then []
    else
      WantIsLatest(t, n - 1, now);
      PlanFrom(t, sent, now, n - 1) + PlanBoost(n - 1, Want(t, n - 1, now), sent[n - 1], now)
  }

  // ------------------------------------------------------------------------
  // Requests
  // ------------------------------------------------------------------------

  /** The slot a renewal of a handle updates: the live request with that handle. */
  ghost predicate IsSlot(t: seq<Request>, handle: int, i: int) {
    0 <= i < |t| && handle != 0 && t[i].handle == handle
  }

  ghost predicate IsFirstFree(t: seq<Request>, i: int) {
    0 <= i < |t| && t[i].handle == 0 && forall j :: 0 <= j < i ==> t[j].handle != 0
  }

  /** What a release does to the table: it ends the request of a handle, and nothing else. */
  ghost predicate Released(t: seq<Request>, handle: int, u: seq<Request>) {
    && |u| == |t|
    && forall i :: 0 <= i < |t| ==>
         u[i] == if handle >= FIRST_HANDLE && t[i].handle == handle then t[i].(handle := 0) else t[i]
  }

  /** What an acquire does to the table: renew the handle's request, or open one under a new handle. */
  ghost predicate Acquired(t: seq<Request>, handle: int, boost: int, durationMs: int, now: int,
                           u: seq<Request>, result: int)
  {
    var e := Expire(t, now);
    var deadline := now + DurationMs(durationMs) * MS;
    || (exists i :: IsSlot(e, handle, i) && u == e[i := Request(handle, boost, deadline)] && result == handle)
    || ((handle == 0 || !InUse(e, handle)) &&
        exists i :: IsFirstFree(e, i) && ValidHandle(result) && !InUse(e, result)
                    && u == e[i := Request(result, boost, deadline)])
    || ((handle == 0 || !InUse(e, handle)) && (forall i :: 0 <= i < |e| ==> e[i].handle != 0)
        && u == e && result == 0)
  }

  /** The table, the handle counter and the worker's bookkeeping as the source keeps them. */
  class Planner {
    const requests: array<Request>
    const sentDeadline: array<int>
    var dirty: bool
    var nextHandle: int

    ghost predicate Valid()
      reads this, requests
    {
      && requests.Length == MAX_REQUESTS && sentDeadline.Length == BOOST_COUNT
      && ValidHandle(nextHandle)
      && DistinctHandles(requests[..])
      && (forall i :: 0 <= i < requests.Length ==> 0 <= requests[i].boost < BOOST_COUNT)
    }

    constructor ()
      ensures Valid() && !dirty
      ensures forall i :: 0 <= i < requests.Length ==> requests[i].handle == 0
      ensures sentDeadline[..] == [0, 0]
    {
      requests := new Request[MAX_REQUESTS](i => Request(0, 0, 0));
      sentDeadline := new int[BOOST_COUNT](i => 0);
      dirty := false;
      nextHandle := FIRST_HANDLE;
    }

    /** The first candidate from the counter that no request uses. */
    method NextHandle(ghost free: nat) returns (handle: int)
      requires Valid() && free < requests.Length && requests[free].handle == 0
      modifies this`nextHandle
      ensures IsFresh(requests[..], old(nextHandle), handle, nextHandle) && ValidHandle(handle) && ValidHandle(nextHandle)
    {
      ghost var k: nat := 0;
      while true
        invariant k < MAX_REQUESTS && nextHandle == Candidate(old(nextHandle), k) && ValidHandle(nextHandle)
        invariant forall j :: 0 <= j < k ==> InUse(requests[..], Candidate(old(nextHandle), j))
        decreases MAX_REQUESTS - k
      {
        handle := nextHandle;
        CandidateValue(old(nextHandle), k + 1);
        nextHandle := if nextHandle == INT_MAX then FIRST_HANDLE else nextHandle + 1;
        var used := false;
        for i := 0 to requests.Length
          invariant used <==> exists j :: 0 <= j < i && requests[j].handle == handle
        {
          used := used || requests[i].handle == handle;
        }
        if !used {
          assert handle == Candidate(old(nextHandle), k) && !InUse(requests[..], handle);
          return;
        }
        assert InUse(requests[..], handle) by {
          var j :| 0 <= j < requests.Length && requests[j].handle == handle;
          assert requests[..][j].handle == handle;
        }
        SomeCandidateFree(requests[..], old(nextHandle), k + 1, free);
        k := k + 1;
      }
    }

    /** Ends the request of a handle, and nothing else. */
    method Release(handle: int) returns (ended: bool)
      requires Valid()
      modifies this`dirty, requests
      ensures Valid()
      ensures ended <==> handle >= FIRST_HANDLE && InUse(old(requests[..]), handle)
      ensures dirty == (old(dirty) || ended)
      ensures Released(old(requests[..]), handle, requests[..])
    {
      if handle < FIRST_HANDLE { return false; }
      for i := 0 to requests.Length
        invariant requests[..] == old(requests[..]) && !InUse(requests[..i], handle)
      {
        if requests[i].handle == handle {
          ghost var before := requests[..];
          assert before[i].handle == handle;
          requests[i] := requests[i].(handle := 0);
          assert requests[..] == before[i := before[i].(handle := 0)];
          dirty := true;
          return true;
        }
        assert requests[..i + 1] == requests[..i] + [requests[i]];
      }
      assert requests[..requests.Length] == requests[..];
      return false;
    }

    /** Clears the expired requests and finds the handle's slot and the first free one. */
    method Scan(handle: int, now: int) returns (slot: int, free: int)
      requires Valid()
      modifies requests
      ensures Valid() && requests[..] == Expire(old(requests[..]), now)
      ensures slot >= 0 ==> IsSlot(requests[..], handle, slot)
      ensures slot < 0 ==> handle == 0 || !InUse(requests[..], handle)
      ensures free >= 0 ==> IsFirstFree(requests[..], free)
      ensures free < 0 ==> forall i :: 0 <= i < requests.Length ==> requests[i].handle != 0
    {
      slot, free := -1, -1;
      ghost var before := requests[..];
      for i := 0 to requests.Length
        invariant forall j :: 0 <= j < i ==> requests[j] == Expired(before[j], now)
        invariant forall j :: i <= j < requests.Length ==> requests[j] == before[j]
        invariant -1 <= slot < i && -1 <= free < i
        invariant slot >= 0 ==> handle != 0 && requests[slot].handle == handle
        invariant slot < 0 ==> handle == 0 || forall j :: 0 <= j < i ==> requests[j].handle != handle
        invariant free >= 0 ==> requests[free].handle == 0 && forall j :: 0 <= j < free ==> requests[j].handle != 0
        invariant free < 0 ==> forall j :: 0 <= j < i ==> requests[j].handle != 0
      {
        if requests[i].handle != 0 && requests[i].deadline <= now {
          requests[i] := requests[i].(handle := 0);
        }
        if requests[i].handle != 0 && requests[i].handle == handle {
          slot := i;
        } else if requests[i].handle == 0 && free < 0 {
          free := i;
        }
      }
      assert requests[..] == Expire(before, now);
    }

    /** Starts or renews a request. 0 means the hint is not forwarded or the table is full. */
    method Acquire(handle: int, hint: int, durationMs: int, now: int, workerRunning: bool)
      returns (result: int)
      requires Valid()
      modifies this`dirty, this`nextHandle, requests
      ensures Valid()
      ensures BoostForHint(hint) < 0 ==>
        result == 0 && nextHandle == old(nextHandle) && Released(old(requests[..]), handle, requests[..])
      ensures BoostForHint(hint) >= 0 && !workerRunning ==>
        result == 0 && requests[..] == old(requests[..]) && dirty == old(dirty) && nextHandle == old(nextHandle)
      ensures BoostForHint(hint) >= 0 && workerRunning ==>
        && Acquired(old(requests[..]), handle, BoostForHint(hint), durationMs, now, requests[..], result)
        && dirty == (old(dirty) || result != 0)
        && var e := Expire(old(requests[..]), now);
           if (handle == 0 || !InUse(e, handle)) && HasFreeSlot(e)
           then IsFresh(e, old(nextHandle), result, nextHandle) else nextHandle == old(nextHandle)
    {
      var boost := BoostForHint(hint);
      if boost < 0 {
        var _ := Release(handle);
        return 0;
      }
      if !workerRunning { return 0; }
      var ms := DurationMs(durationMs);
      var slot, free := Scan(handle, now);
      ghost var e := requests[..];
      result := 0;
      var taken := handle;
      if slot < 0 && free >= 0 {
        slot := free;
        taken := NextHandle(free);
        assert forall i :: 0 <= i < |e| ==> e[i].handle != taken;
      }
      if slot >= 0 {
        requests[slot] := Request(taken, boost, now + ms * MS);
        result := taken;
        dirty := true;
        assert requests[..] == e[slot := Request(taken, boost, now + ms * MS)];
      }
    }

    /** The calls for what the live requests want now, given what was sent before. */
    method Plan(now: int) returns (actions: seq<Action>)
      requires Valid() && now >= 0
      modifies requests, sentDeadline
      ensures Valid() && requests[..] == Expire(old(requests[..]), now)
      ensures forall b :: 0 <= b < BOOST_COUNT ==> sentDeadline[b] == Want(old(requests[..]), b, now)
      ensures actions == PlanFrom(old(requests[..]), old(sentDeadline[..]), now, BOOST_COUNT)
      ensures |actions| <= 2 * BOOST_COUNT
    {
      var want := Wanted(now);
      ghost var t := old(requests[..]);
      ghost var sent := old(sentDeadline[..]);
      actions := [];
      for b := 0 to BOOST_COUNT
        invariant forall i :: 0 <= i < b ==> sentDeadline[i] == want[i]
        invariant forall i :: b <= i < BOOST_COUNT ==> sentDeadline[i] == sent[i]
        invariant actions == PlanFrom(t, sent, now, b) && |actions| <= 2 * b
        invariant requests[..] == Expire(t, now)
      {
        WantIsLatest(t, b, now);
        var running := sentDeadline[b] > now;
        if want[b] == 0 {
          if running { actions := actions + [Action(b, -1)]; }
          sentDeadline[b] := 0;
          continue;
        }
        if running && want[b] == sentDeadline[b] { continue; }
        if running && want[b] < sentDeadline[b] { actions := actions + [Action(b, -1)]; }
        actions := actions + [Action(b, MsUntil(want[b], now))];
        sentDeadline[b] := want[b];
      }
    }

    /** The first loop of the plan: frees expired requests and finds each boost's latest deadline. */
    method Wanted(now: int) returns (want: seq<int>)
      requires Valid() && now >= 0
      modifies requests
      ensures Valid() && requests[..] == Expire(old(requests[..]), now)
      ensures |want| == BOOST_COUNT
      ensures forall b :: 0 <= b < BOOST_COUNT ==> want[b] == Want(old(requests[..]), b, now)
    {
      want := [0, 0];
      ghost var t := requests[..];
      for i := 0 to requests.Length
        invariant |want| == BOOST_COUNT
        invariant forall j :: 0 <= j < i ==> requests[j] == Expired(t[j], now)
        invariant forall j :: i <= j < requests.Length ==> requests[j] == t[j]
        invariant forall b :: 0 <= b < BOOST_COUNT ==> want[b] == Want(t[..i], b, now)
      {
        assert t[..i + 1][..i] == t[..i];
        var r := requests[i];
        if r.handle == 0 { continue; }
        if r.deadline <= now {
          requests[i] := r.(handle := 0);
          continue;
        }
        if r.deadline > want[r.boost] { want := want[r.boost := r.deadline]; }
      }
      assert t[..requests.Length] == t;
      assert requests[..] == Expire(t, now);
    }
  }
}
