/**
 The session as an object whose fields the critical sections update in place
 (fingerprint/Session.h, fingerprint/Session.cpp). View gathers the fields into the value the
 protocol reasons about; every method is proved against the section of the same name.
 */
module FingerprintHal {
  import opened Common
  import opened S = FingerprintSession

  function Log(cb: Option<Callback>): seq<Callback> {
    if cb.None? then [] else [cb.value]
  }

  class SessionHal {
    const userId: int
    var nextOp: nat
    var op: nat
    var kind: OpKind
    var ended: bool
    var detached: bool
    var enumerated: seq<int>
    var removed: seq<int>
    var authOperationId: int
    var pressToAuth: bool
    var display: Display
    var heldMatch: bool
    var heldEnrollmentId: int
    var heldToken: Token
    var heldAt: int
    // What the framework's callback object received.
    var sent: seq<Callback>

    constructor (userId: int)
      ensures Valid() && View() == Fresh(userId) && sent == []
    {
      this.userId := userId;
      nextOp, op, kind, ended, detached := 0, 0, NoKind, true, false;
      enumerated, removed, authOperationId := [], [], 0;
      pressToAuth, display := false, UnknownDisplay;
      heldMatch, heldEnrollmentId, heldToken, heldAt := false, 0, 0, 0;
      sent := [];
    }

    ghost function View(): Session
      reads this
    {
      Session(userId, nextOp, op, kind, ended, detached, enumerated, removed, authOperationId,
              pressToAuth, display,
              if heldMatch then Some(HeldMatch(heldEnrollmentId, heldToken, heldAt)) else None)
    }

    ghost predicate Valid()
      reads this
    {
      IsSound(View())
    }

    predicate RunningOp(id: nat)
      reads this
    {
      !detached && op == id && !ended
    }

    predicate RunningKind(k: OpKind)
      reads this
    {
      !ended && kind == k
    }

    predicate ScreenGated()
      reads this
    {
      RunningKind(Authenticate) && pressToAuth && (display == NoUi || display == Aod)
    }

    method BeginOperation(k: OpKind) returns (id: nat)
      requires Valid()
      modifies this
      ensures Valid() && View() == S.BeginOperation(old(View()), k) && sent == old(sent)
      ensures id == if old(detached) then 0 else op
    {
      if detached { return 0; }
      nextOp := nextOp + 1;
      op, kind, ended := nextOp, k, false;
      enumerated, removed := [], [];
      heldMatch := false;
      return op;
    }

    method EndOperation()
      requires Valid()
      modifies this`ended, this`heldMatch
      ensures Valid() && View() == old(View()).End()
    {
      ended := true;
      heldMatch := false;
    }

    method FailOperation(id: nat)
      requires Valid()
      modifies this
      ensures Valid()
      ensures var o := S.FailOperation(old(View()), id);
              View() == o.session && sent == old(sent) + Log(o.sent)
    {
      if !RunningOp(id) { return; }
      sent := sent + [OnError(UNABLE_TO_PROCESS, 0)];
      EndOperation();
    }

    method OnMatch(fid: int, gid: int, token: Token, now: int) returns (rearm: bool)
      requires Valid()
      modifies this
      ensures Valid()
      ensures var o := S.OnMatch(old(View()), fid, gid, token, now);
              View() == o.session && sent == old(sent) + Log(o.sent) && rearm == o.rearm
    {
      rearm := false;
      if RunningKind(DetectInteraction) {
        sent := sent + [OnInteractionDetected];
        EndOperation();
        return;
      }
      if !RunningKind(Authenticate) { return; }
      if ScreenGated() {
        if fid != 0 && gid == userId {
          heldMatch, heldEnrollmentId, heldToken, heldAt := true, fid, token, now;
          rearm := true;
        }
        return;
      }
      if fid == 0 || gid != userId {
        sent := sent + [OnAuthenticationFailed];
      } else {
        sent := sent + [OnAuthenticationSucceeded(fid, token)];
        EndOperation();
      }
    }

    method OnLockout(lockout: int, duration: int)
      requires Valid()
      modifies this
      ensures Valid()
      ensures var o := S.OnLockout(old(View()), lockout, duration);
              View() == o.session && sent == old(sent) + Log(o.sent)
    {
      var terminal := false;
      if lockout == LOCKOUT_TIMED {
        sent := sent + [OnLockoutTimed(duration)];
        terminal := RunningKind(Authenticate) || RunningKind(DetectInteraction);
      } else if lockout == LOCKOUT_PERMANENT {
        sent := sent + [OnLockoutPermanent];
        terminal := RunningKind(Authenticate) || RunningKind(DetectInteraction);
      } else if lockout == LOCKOUT_CLEARED {
        sent := sent + [OnLockoutCleared];
        terminal := RunningKind(ResetLockout);
      }
      if terminal { EndOperation(); }
    }

    method OnEnumerating(fid: int, remaining: int)
      requires Valid()
      modifies this
      ensures Valid()
      ensures var o := S.OnEnumerating(old(View()), fid, remaining);
              View() == o.session && sent == old(sent) + Log(o.sent)
    {
      if !RunningKind(Enumerate) { return; }
      if fid != 0 { enumerated := enumerated + [fid]; }
      if remaining == 0 {
        var ids := enumerated;
        enumerated := [];
        sent := sent + [OnEnrollmentsEnumerated(ids)];
        EndOperation();
      }
    }

    method OnMessage(m: Message, now: int) returns (rearm: bool)
      requires Valid()
      modifies this
      ensures Valid()
      ensures var o := S.OnMessage(old(View()), m, now);
              View() == o.session && sent == old(sent) + Log(o.sent) && rearm == o.rearm
    {
      rearm := false;
      if detached { return; }
      match m
      case ErrorMsg(code) =>
        if !ended {
          sent := sent + [ToAidlError(code)];
          EndOperation();
        }
      case AcquiredMsg(info) =>
        if (RunningKind(Enroll) || RunningKind(Authenticate) || RunningKind(DetectInteraction))
           && !ScreenGated() {
          sent := sent + [ToAidlAcquired(info)];
        }
      case EnrollingMsg(fid, gid, remaining) =>
        if RunningKind(Enroll) && gid == userId {
          sent := sent + [OnEnrollmentProgress(fid, remaining)];
          if remaining == 0 { EndOperation(); }
        }
      case RemovedMsg(fid) =>
        if RunningKind(Remove) && fid != 0 { removed := removed + [fid]; }
      case AuthenticatedMsg(fid, gid, token) =>
        rearm := OnMatch(fid, gid, token, now);
      case EnumeratingMsg(fid, remaining) =>
        OnEnumerating(fid, remaining);
      case LockoutMsg(lockout, duration) =>
        OnLockout(lockout, duration);
      case InteractionMsg =>
        if RunningKind(DetectInteraction) {
          sent := sent + [OnInteractionDetected];
          EndOperation();
        }
      case UnknownMsg =>
    }

    method UpdateContext(c: Context)
      requires Valid()
      modifies this`display, this`pressToAuth
      ensures Valid() && View() == S.UpdateContext(old(View()), c)
    {
      display := c.display;
      if c.pressToAuth.Some? { pressToAuth := c.pressToAuth.value; }
    }

    method OnContextChanged(c: Context, now: int) returns (released: nat)
      requires Valid()
      modifies this
      ensures Valid()
      ensures var o := S.OnContextChanged(old(View()), c, now);
              && View() == o.session && sent == old(sent) + Log(o.sent)
              && released == if o.released then op else 0
    {
      released := 0;
      UpdateContext(c);
      if detached || ended || !heldMatch || ScreenGated() { return; }
      heldMatch := false;
      if now - heldAt <= HELD_MATCH_WINDOW_NS {
        sent := sent + [OnAuthenticationSucceeded(heldEnrollmentId, heldToken)];
        EndOperation();
        released := op;
      }
    }

    /** The module reports while a call into it is running. */
    method OnMessages(msgs: seq<Message>, now: int)
      requires Valid()
      modifies this
      ensures Valid() && Both(View(), sent) == Feed(Both(old(View()), old(sent)), msgs, now)
    {
      for k := 0 to |msgs|
        invariant Valid() && Both(View(), sent) == Feed(Both(old(View()), old(sent)), msgs[..k], now)
      {
        assert msgs[..k + 1][..k] == msgs[..k];
        var _ := OnMessage(msgs[k], now);
      }
      assert msgs[..|msgs|] == msgs;
    }

    /** Asks the module to remove each id but 0; it reports before each remove() returns. */
    method RemoveEach(ids: seq<int>, reports: int -> seq<Message>, now: int) returns (calls: seq<int>)
      requires Valid()
      modifies this
      ensures Valid() && calls == NonZero(ids)
      ensures Both(View(), sent) == FeedAll(Both(old(View()), old(sent)), calls, reports, now)
    {
      calls := [];
      for i := 0 to |ids|
        invariant Valid() && calls == NonZero(ids[..i])
        invariant Both(View(), sent) == FeedAll(Both(old(View()), old(sent)), calls, reports, now)
      {
        assert ids[..i + 1] == ids[..i] + [ids[i]];
        NonZeroAppend(ids[..i], ids[i]);
        if ids[i] == 0 { continue; }
        assert (calls + [ids[i]])[..|calls|] == calls;
        calls := calls + [ids[i]];
        OnMessages(reports(ids[i]), now);
      }
      assert ids[..|ids|] == ids;
    }

    method FinishRemoval(mine: nat)
      requires Valid()
      modifies this
      ensures Valid()
      ensures var o := S.FinishRemoval(old(View()), mine);
              View() == o.session && sent == old(sent) + Log(o.sent)
    {
      if !RunningOp(mine) { return; }
      var gone := removed;
      removed := [];
      sent := sent + [OnEnrollmentsRemoved(gone)];
      EndOperation();
    }

    method RemoveEnrollments(ids: seq<int>, reports: int -> seq<Message>, now: int)
      returns (closed: bool, calls: seq<int>)
      requires Valid()
      modifies this
      ensures Valid() && closed == old(detached)
      ensures closed ==> View() == old(View()) && sent == old(sent) && calls == []
      ensures !closed ==> calls == NonZero(ids)
      ensures !closed ==> Both(View(), sent) == Removal(Both(old(View()), old(sent)), ids, reports, now)
    {
      calls := [];
      var mine := BeginOperation(Remove);
      closed := mine == 0;
      if closed { return; }
      calls := RemoveEach(ids, reports, now);
      FinishRemoval(mine);
    }
  }

  /** A session together with the callbacks it has sent. */
  datatype Logged = Both(session: Session, sent: seq<Callback>)

  function Feed(l: Logged, msgs: seq<Message>, now: int): Logged {
    if msgs == [] then l
    else
      var before := Feed(l, msgs[..|msgs| - 1], now);
      var o := S.OnMessage(before.session, msgs[|msgs| - 1], now);
      Both(o.session, before.sent + Log(o.sent))
  }

  function FeedAll(l: Logged, calls: seq<int>, reports: int -> seq<Message>, now: int): Logged {
    if calls == [] then l
    else Feed(FeedAll(l, calls[..|calls| - 1], reports, now), reports(calls[|calls| - 1]), now)
  }

  function Removal(l: Logged, ids: seq<int>, reports: int -> seq<Message>, now: int): Logged {
    var s := S.BeginOperation(l.session, Remove);
    var fed := FeedAll(Both(s, l.sent), NonZero(ids), reports, now);
    var o := S.FinishRemoval(fed.session, s.op);
    Both(o.session, fed.sent + Log(o.sent))
  }

  /** The ids the module may be asked to remove. */
  function NonZero(ids: seq<int>): seq<int> {
    if ids == [] then []
    else NonZero(ids[..|ids| - 1]) + (if ids[|ids| - 1] == 0 then [] else [ids[|ids| - 1]])
  }

  lemma NonZeroAppend(ids: seq<int>, id: int)
    ensures NonZero(ids + [id]) == NonZero(ids) + (if id == 0 then [] else [id])
  {
    assert (ids + [id])[..|ids|] == ids;
  }

  /** The fingers a list of removal reports names. */
  function Fingers(msgs: seq<Message>): seq<int> {
    if msgs == [] then []
    else
      var m := msgs[|msgs| - 1];
      Fingers(msgs[..|msgs| - 1]) + (if m.RemovedMsg? && m.fid != 0 then [m.fid] else [])
  }

  function Removals(calls: seq<int>, reports: int -> seq<Message>): seq<int> {
    if calls == [] then []
    else Removals(calls[..|calls| - 1], reports) + Fingers(reports(calls[|calls| - 1]))
  }

  ghost predicate OnlyRemovals(msgs: seq<Message>) {
    forall i :: 0 <= i < |msgs| ==> msgs[i].RemovedMsg?
  }

  lemma {:induction false} FeedRemovals(l: Logged, msgs: seq<Message>, now: int)
    requires OnlyRemovals(msgs) && l.session.RunningKind(Remove) && !l.session.detached
    ensures Feed(l, msgs, now) ==
            Both(l.session.(removed := l.session.removed + Fingers(msgs)), l.sent)
  {
    if msgs == [] {
      assert l.session.removed + [] == l.session.removed;
    } else {
      var m := msgs[|msgs| - 1];
      FeedRemovals(l, msgs[..|msgs| - 1], now);
      var f := Fingers(msgs[..|msgs| - 1]);
      if m.fid != 0 {
        assert l.session.removed + (f + [m.fid]) == (l.session.removed + f) + [m.fid];
      } else {
        assert f + [] == f;
      }
    }
  }

  lemma {:induction false} FeedAllRemovals(l: Logged, calls: seq<int>, reports: int -> seq<Message>, now: int)
    requires forall id :: OnlyRemovals(reports(id))
    requires l.session.RunningKind(Remove) && !l.session.detached
    ensures FeedAll(l, calls, reports, now) ==
            Both(l.session.(removed := l.session.removed + Removals(calls, reports)), l.sent)
  {
    if calls == [] {
      assert l.session.removed + [] == l.session.removed;
    } else {
      var init := calls[..|calls| - 1];
      FeedAllRemovals(l, init, reports, now);
      var last := reports(calls[|calls| - 1]);
      FeedRemovals(FeedAll(l, init, reports, now), last, now);
      assert l.session.removed + (Removals(init, reports) + Fingers(last))
          == (l.session.removed + Removals(init, reports)) + Fingers(last);
    }
  }

  /**
   When the module answers each remove() with removals only, the operation ends with one callback
   that lists the removed fingers in the order of the reports.
   */
  lemma RemovedFingersReportedOnce(l: Logged, ids: seq<int>, reports: int -> seq<Message>, now: int)
    requires !l.session.detached && forall id :: OnlyRemovals(reports(id))
    ensures var r := Removal(l, ids, reports, now);
            && r.sent == l.sent + [OnEnrollmentsRemoved(Removals(NonZero(ids), reports))]
            && r.session.ended && r.session.op == l.session.nextOp + 1 && r.session.removed == []
  {
    FeedAllRemovals(Both(S.BeginOperation(l.session, Remove), l.sent), NonZero(ids), reports, now);
    assert [] + Removals(NonZero(ids), reports) == Removals(NonZero(ids), reports);
  }
}
