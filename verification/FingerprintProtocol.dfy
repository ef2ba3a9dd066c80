/**
 Every interleaving of a fingerprint session's threads (fingerprint/Session.cpp).

 The module lock has one holder at a time, and the module may report at any point, also while
 a call into it is running. An action is one critical section, one module call or one return
 from it, so a sequence of actions is one interleaving. An action that is not enabled leaves
 the world as it is. The trace records what the framework and the module see.
 */
module FingerprintProtocol {
  import opened Common
  import opened FingerprintSession

  datatype Event =
    | Begun(op: nat, kind: OpKind)
    | Sent(op: nat, kind: OpKind, live: bool, screenOff: bool, cb: Callback, at: int)
    | Matched(op: nat, fid: int, gid: int, token: Token, at: int)
    | Called(op: nat, kind: OpKind)
    | RemoveCalled(op: nat, id: int)
    | Rearmed(op: nat, authOperationId: int)
    | Cancelled(op: nat)
    | Detached

  /** Who holds the module lock, and how far that call has got. */
  datatype Holder =
    | Free
    | Starting(op: nat, kind: OpKind, authOperationId: int, ids: seq<int>)
    | InCall(op: nat, kind: OpKind, ids: seq<int>)
    | Cancelling(op: nat, reported: bool)
    | Rearming(op: nat)

  datatype Action =
    | Tick(ns: nat)
    | Request(kind: OpKind, authOperationId: int, ids: seq<int>)
    | CallModule
    | Unsupported
    | RemoveNext
    | ModuleReturns(err: int, id: int)
    | Report(m: Message)
    | GiveContext(context: Context)
    | ChangeContext(context: Context)
    | Cancel(op: nat)
    | CancelReturns
    | RunRearm(op: nat)
    | RearmReturns(err: int)
    | RunStopSensor(op: nat)
    | Detach(clientDied: bool)

  datatype World = World(
    session: Session,
    now: int,
    holder: Holder,
    rearms: multiset<nat>,
    stops: multiset<nat>,
    trace: seq<Event>)

  function Init(userId: int): World {
    World(Fresh(userId), 0, Free, multiset{}, multiset{}, [])
  }

  /** Applies a section's outcome and records what it sent. */
  function Apply(w: World, o: Outcome): World {
    var s := w.session;
    w.(session := o.session,
       rearms := if o.rearm then w.rearms + multiset{s.op} else w.rearms,
       stops := if o.released then w.stops + multiset{s.op} else w.stops,
       trace := if o.sent.None? then w.trace
                else w.trace + [Sent(s.op, s.kind, !s.ended, o.session.ScreenOff(), o.sent.value, w.now)])
  }

  function StartRequest(w: World, kind: OpKind, authOperationId: int, ids: seq<int>): World {
    if w.holder != Free || kind == NoKind || w.session.detached then w
    else
      var s := BeginOperation(w.session, kind);
      w.(session := s, holder := Starting(s.op, kind, authOperationId, ids),
         trace := w.trace + [Begun(s.op, kind)])
  }

  function CallTheModule(w: World): World {
    if !w.holder.Starting? then w
    else
      var h := w.holder;
      var s := if h.kind == Authenticate
               then w.session.(authOperationId := h.authOperationId) else w.session;
      w.(session := s, holder := InCall(h.op, h.kind, h.ids),
         trace := if h.kind == Remove then w.trace else w.trace + [Called(h.op, h.kind)])
  }

  /** A module without the reserved entry point fails the operation at once. */
  function CallUnsupported(w: World): World {
    if w.holder.Starting? && (w.holder.kind == DetectInteraction || w.holder.kind == ResetLockout
                              || w.holder.kind == InvalidateAuthenticatorId)
    then Apply(w, FailOperation(w.session, w.holder.op)).(holder := Free)
    else w
  }

  function RemoveOne(w: World): World {
    if w.holder.InCall? && w.holder.kind == Remove && w.holder.ids != [] then
      var h := w.holder;
      w.(holder := InCall(h.op, Remove, h.ids[1..]),
         trace := if h.ids[0] == 0 then w.trace else w.trace + [RemoveCalled(h.op, h.ids[0])])
    else w
  }

  function ReturnFromModule(w: World, err: int, id: int): World {
    if !w.holder.InCall? then w
    else
      var h := w.holder;
      if h.kind == Remove then
        if h.ids != [] then w
        else Apply(w, FinishRemoval(w.session, h.op)).(holder := Free)
      else if err != 0 then Apply(w, FailOperation(w.session, h.op)).(holder := Free)
      else if h.kind == InvalidateAuthenticatorId then
        Apply(w, FinishInvalidation(w.session, h.op, id)).(holder := Free)
      else w.(holder := Free)
  }

  /** The match as the trace records it, before the session reacts to it. */
  function NoteMatch(w: World, m: Message): World {
    if m.AuthenticatedMsg? && !w.session.detached
    then w.(trace := w.trace + [Matched(w.session.op, m.fid, m.gid, m.token, w.now)])
    else w
  }

  /** A CANCELED report during a cancel is the answer the module gives before it returns. */
  function Reported(w: World, m: Message): World {
    var a := Apply(NoteMatch(w, m), OnMessage(w.session, m, w.now));
    if w.holder.Cancelling? && m == ErrorMsg(CANCELED)
    then a.(holder := Cancelling(w.holder.op, true)) else a
  }

  function StartCancel(w: World, op: nat): World {
    w.(holder := Cancelling(op, false), trace := w.trace + [Cancelled(op)])
  }

  function RunTheRearm(w: World, op: nat): World {
    if w.holder != Free || op !in w.rearms then w
    else
      var v := w.(rearms := w.rearms - multiset{op});
      if !v.session.RunningOp(op) then v
      else v.(holder := Rearming(op),
              trace := v.trace + [Rearmed(op, v.session.authOperationId)])
  }

  function RunTheStop(w: World, op: nat): World {
    if w.holder != Free || op !in w.stops then w
    else
      var v := w.(stops := w.stops - multiset{op});
      if v.session.detached || v.session.op != op then v else StartCancel(v, op)
  }

  function RunDetach(w: World, clientDied: bool): World {
    if w.holder != Free || w.session.detached then w
    else
      var v := w.(session := w.session.(detached := true), trace := w.trace + [Detached]);
      if clientDied && !w.session.ended then StartCancel(v, w.session.op) else v
  }

  function Next(w: World, a: Action): World {
    match a
    case Tick(ns) => w.(now := w.now + ns)
    case Request(kind, authOperationId, ids) => StartRequest(w, kind, authOperationId, ids)
    case CallModule => CallTheModule(w)
    case Unsupported => CallUnsupported(w)
    case RemoveNext => RemoveOne(w)
    case ModuleReturns(err, id) => ReturnFromModule(w, err, id)
    case Report(m) => Reported(w, m)
    case GiveContext(c) => w.(session := UpdateContext(w.session, c))
    case ChangeContext(c) => Apply(w, OnContextChanged(w.session, c, w.now))
    case Cancel(op) => if w.holder == Free && w.session.RunningOp(op) then StartCancel(w, op) else w
    case CancelReturns => if w.holder.Cancelling? && w.holder.reported then w.(holder := Free) else w
    case RunRearm(op) => RunTheRearm(w, op)
    case RearmReturns(err) =>
      if !w.holder.Rearming? then w
      else if err == 0 then w.(holder := Free)
      else Apply(w, FailOperation(w.session, w.holder.op)).(holder := Free)
    case RunStopSensor(op) => RunTheStop(w, op)
    case Detach(clientDied) => RunDetach(w, clientDied)
  }

  function Exec(w: World, acts: seq<Action>): World {
    if acts == [] then w else Next(Exec(w, acts[..|acts| - 1]), acts[|acts| - 1])
  }

  // ------------------------------------------------------------------------
  // What a trace must satisfy, stated on each event and the events before it.
  // ------------------------------------------------------------------------

  /** The event is the terminal result of its operation. */
  predicate IsResult(e: Event) {
    e.Sent? && e.live && Terminal(e.kind, e.cb)
  }

  ghost predicate HasResult(t: seq<Event>, op: nat) {
    exists i :: 0 <= i < |t| && IsResult(t[i]) && t[i].op == op
  }

  ghost predicate HasMatch(t: seq<Event>, op: nat, fid: int, gid: int, token: Token, at: int) {
    exists i :: 0 <= i < |t| && t[i] == Matched(op, fid, gid, token, at)
  }

  /** A success is backed by a match of this user in the same operation, at most the window ago. */
  ghost predicate Justified(t: seq<Event>, e: Event, userId: int)
    requires e.Sent? && e.cb.OnAuthenticationSucceeded?
  {
    && e.live && e.kind == Authenticate && !e.screenOff && e.cb.fid != 0
    && exists at ::
         && HasMatch(t, e.op, e.cb.fid, userId, e.cb.token, at)
         && 0 <= e.at - at <= HELD_MATCH_WINDOW_NS
  }

  ghost predicate Allowed(t: seq<Event>, e: Event, userId: int) {
    && (IsResult(e) ==> !HasResult(t, e.op))
    && (e.Sent? || e.Begun? || e.Rearmed? ==> Detached !in t)
    && (e.Sent? && !LockoutNotice(e.cb) ==> e.live)
    && (e.Sent? && e.cb.OnAuthenticationSucceeded? ==> Justified(t, e, userId))
    && (e.Rearmed? ==> Cancelled(e.op) !in t)
    && (e.Begun? ==> forall i :: 0 <= i < |t| && t[i].Begun? ==> t[i].op < e.op)
    && (e.Rearmed? || e.Cancelled? ==> forall i :: 0 <= i < |t| && t[i].Begun? ==> t[i].op <= e.op)
    && (e.RemoveCalled? ==> e.id != 0)
  }

  ghost predicate TraceSafe(t: seq<Event>, userId: int) {
    forall j {:trigger Allowed(t[..j], t[j], userId)} :: 0 <= j < |t| ==> Allowed(t[..j], t[j], userId)
  }

  /** What the session needs of a match it holds. */
  ghost predicate HeldBacked(s: Session, t: seq<Event>, now: int) {
    s.held.Some? ==>
      && s.RunningKind(Authenticate) && s.held.value.fid != 0 && s.held.value.at <= now
      && HasMatch(t, s.op, s.held.value.fid, s.userId, s.held.value.token, s.held.value.at)
  }

  /** The session's flags agree with the trace. */
  ghost predicate Linked(w: World) {
    var s, t := w.session, w.trace;
    && s.op == s.nextOp
    && (s.op == 0 ==> s.ended)
    && (s.op != 0 ==> Begun(s.op, s.kind) in t)
    && (s.ended <==> s.op == 0 || HasResult(t, s.op))
    && (s.detached <==> Detached in t)
    && (forall e :: e in t && (e.Begun? || IsResult(e)) ==> 0 < e.op <= s.op)
    && (forall op: nat :: Cancelled(op) in t ==> op <= s.op)
    && (forall op :: Cancelled(op) in t && w.holder != Cancelling(op, false) ==> !s.RunningOp(op))
    && (forall op :: op in w.stops ==> op <= s.op && !s.RunningOp(op))
    && HeldBacked(s, t, w.now)
    && (w.holder.Cancelling? || w.holder.Rearming? ==> w.holder.op <= s.op)
  }

  ghost predicate Safe(w: World) {
    TraceSafe(w.trace, w.session.userId) && Linked(w)
  }

  // ------------------------------------------------------------------------
  // Preservation
  // ------------------------------------------------------------------------

  lemma Extend(t: seq<Event>, e: Event, userId: int)
    requires TraceSafe(t, userId) && Allowed(t, e, userId)
    ensures TraceSafe(t + [e], userId)
  {
    var u := t + [e];
    forall j | 0 <= j < |u| ensures Allowed(u[..j], u[j], userId) {
      assert u[..j] == if j < |t| then t[..j] else t;
    }
  }

  /** Appending an event adds only that event's facts. */
  lemma Grow(t: seq<Event>, e: Event)
    ensures forall x :: x in t + [e] <==> x in t || x == e
    ensures forall op :: HasResult(t + [e], op) <==> HasResult(t, op) || (IsResult(e) && e.op == op)
  {
    var u := t + [e];
    assert u[|t|] == e;
    forall op ensures HasResult(u, op) <==> HasResult(t, op) || (IsResult(e) && e.op == op) {
      if HasResult(t, op) {
        var i :| 0 <= i < |t| && IsResult(t[i]) && t[i].op == op;
        assert u[i] == t[i];
      }
    }
  }

  lemma KeepMatch(t: seq<Event>, e: Event, op: nat, fid: int, gid: int, token: Token, at: int)
    requires HasMatch(t, op, fid, gid, token, at) || e == Matched(op, fid, gid, token, at)
    ensures HasMatch(t + [e], op, fid, gid, token, at)
  {
    var u := t + [e];
    assert u[|t|] == e;
    if HasMatch(t, op, fid, gid, token, at) {
      var i :| 0 <= i < |t| && t[i] == Matched(op, fid, gid, token, at);
      assert u[i] == t[i];
    }
  }

  /** Recording an event that is no result keeps the links, apart from cancels and detach. */
  lemma Record(w: World, e: Event)
    requires Safe(w) && Allowed(w.trace, e, w.session.userId)
    requires e.Matched? || e.Called? || e.RemoveCalled? || e.Rearmed?
    ensures Safe(w.(trace := w.trace + [e]))
  {
    Grow(w.trace, e);
    Extend(w.trace, e, w.session.userId);
    if w.session.held.Some? {
      var h := w.session.held.value;
      KeepMatch(w.trace, e, w.session.op, h.fid, w.session.userId, h.token, h.at);
    }
  }

  function SentEvent(s: Session, o: Outcome, now: int): Event
    requires o.sent.Some?
  {
    Sent(s.op, s.kind, !s.ended, o.session.ScreenOff(), o.sent.value, now)
  }

  ghost predicate SuccessBacked(w: World, o: Outcome) {
    o.sent.Some? && o.sent.value.OnAuthenticationSucceeded? ==>
      Justified(w.trace, SentEvent(w.session, o, w.now), w.session.userId)
  }

  /** Applying a faithful outcome keeps the world safe, if a success it sends is justified. */
  lemma ApplySafe(w: World, o: Outcome)
    requires Safe(w) && Faithful(w.session, o)
    requires HeldBacked(o.session, w.trace, w.now) && SuccessBacked(w, o)
    ensures Safe(Apply(w, o))
  {
    var s := w.session;
    if o.sent.Some? {
      var e := SentEvent(s, o, w.now);
      Grow(w.trace, e);
      Extend(w.trace, e, s.userId);
      if o.session.held.Some? {
        var h := o.session.held.value;
        KeepMatch(w.trace, e, s.op, h.fid, s.userId, h.token, h.at);
      }
    }
  }

  /** A message that follows its own record in the trace justifies what the session makes of it. */
  lemma MessageBacked(w: World, m: Message)
    requires HeldBacked(w.session, w.trace, w.now)
    requires m.AuthenticatedMsg? && !w.session.detached ==>
               HasMatch(w.trace, w.session.op, m.fid, m.gid, m.token, w.now)
    ensures var o := OnMessage(w.session, m, w.now);
            HeldBacked(o.session, w.trace, w.now) && SuccessBacked(w, o)
  {
  }

  lemma ReportSafe(w: World, m: Message)
    requires Safe(w)
    ensures Safe(Reported(w, m))
  {
    var s := w.session;
    var v := NoteMatch(w, m);
    if m.AuthenticatedMsg? && !s.detached {
      var e := Matched(s.op, m.fid, m.gid, m.token, w.now);
      Record(w, e);
      KeepMatch(w.trace, e, s.op, m.fid, m.gid, m.token, w.now);
    }
    MessageIsFaithful(s, m, w.now);
    MessageBacked(v, m);
    ApplySafe(v, OnMessage(s, m, w.now));
    CancelReported(w, Apply(v, OnMessage(s, m, w.now)), m);
  }

  /** The CANCELED answer of a cancel leaves no operation running. */
  lemma CancelReported(w: World, a: World, m: Message)
    requires Safe(a) && a.holder == w.holder
    requires a.session == OnMessage(w.session, m, w.now).session
    ensures m == ErrorMsg(CANCELED) && w.holder.Cancelling? ==>
              Safe(a.(holder := Cancelling(w.holder.op, true)))
  {
  }

  lemma ContextSafe(w: World, c: Context)
    requires Safe(w)
    ensures Safe(Apply(w, OnContextChanged(w.session, c, w.now)))
  {
    ContextChangeIsFaithful(w.session, c, w.now);
    ApplySafe(w, OnContextChanged(w.session, c, w.now));
  }

  lemma StartCancelSafe(w: World, op: nat)
    requires Safe(w) && w.holder == Free && op == w.session.op
    ensures Safe(StartCancel(w, op))
  {
    var e := Cancelled(op);
    Grow(w.trace, e);
    assert forall i :: 0 <= i < |w.trace| && w.trace[i].Begun? ==> w.trace[i] in w.trace;
    Extend(w.trace, e, w.session.userId);
    if w.session.held.Some? {
      var h := w.session.held.value;
      KeepMatch(w.trace, e, w.session.op, h.fid, w.session.userId, h.token, h.at);
    }
  }

  lemma NoLaterEvent(w: World, op: nat)
    requires Linked(w) && op > w.session.op
    ensures !HasResult(w.trace, op)
    ensures forall i :: 0 <= i < |w.trace| && w.trace[i].Begun? ==> w.trace[i].op < op
  {
    assert forall i :: 0 <= i < |w.trace| ==> w.trace[i] in w.trace;
  }

  lemma StartRequestLinked(w: World, kind: OpKind, s: Session, holder: Holder)
    requires Linked(w) && w.holder == Free && kind != NoKind && !w.session.detached
    requires s == BeginOperation(w.session, kind) && holder.Starting?
    ensures Linked(w.(session := s, holder := holder, trace := w.trace + [Begun(s.op, kind)]))
  {
    NoLaterEvent(w, s.op);
    Grow(w.trace, Begun(s.op, kind));
  }

  lemma StartRequestSafe(w: World, kind: OpKind, authOperationId: int, ids: seq<int>)
    requires Safe(w)
    ensures Safe(StartRequest(w, kind, authOperationId, ids))
  {
    if w.holder == Free && kind != NoKind && !w.session.detached {
      var s := BeginOperation(w.session, kind);
      StartRequestLinked(w, kind, s, Starting(s.op, kind, authOperationId, ids));
      NoLaterEvent(w, s.op);
      Extend(w.trace, Begun(s.op, kind), w.session.userId);
    }
  }

  lemma RearmSafe(w: World, op: nat)
    requires Safe(w)
    ensures Safe(RunTheRearm(w, op))
  {
    if w.holder == Free && op in w.rearms && w.session.RunningOp(op) {
      assert forall i :: 0 <= i < |w.trace| && w.trace[i].Begun? ==> w.trace[i] in w.trace;
      Record(w, Rearmed(op, w.session.authOperationId));
    }
  }

  lemma DetachSafe(w: World, clientDied: bool)
    requires Safe(w)
    ensures Safe(RunDetach(w, clientDied))
  {
    if w.holder == Free && !w.session.detached {
      var v := w.(session := w.session.(detached := true), trace := w.trace + [Detached]);
      Grow(w.trace, Detached);
      Extend(w.trace, Detached, w.session.userId);
      if w.session.held.Some? {
        var h := w.session.held.value;
        KeepMatch(w.trace, Detached, w.session.op, h.fid, w.session.userId, h.token, h.at);
      }
      assert Safe(v);
      if clientDied && !w.session.ended {
        StartCancelSafe(v, w.session.op);
      }
    }
  }

  lemma CallSafe(w: World)
    requires Safe(w)
    ensures Safe(CallTheModule(w)) && Safe(RemoveOne(w))
  {
    if w.holder.Starting? && w.holder.kind != Remove {
      Record(w, Called(w.holder.op, w.holder.kind));
    }
    if w.holder.InCall? && w.holder.ids != [] && w.holder.ids[0] != 0 {
      Record(w, RemoveCalled(w.holder.op, w.holder.ids[0]));
    }
  }

  lemma FailSafe(w: World, op: nat)
    requires Safe(w)
    ensures Safe(Apply(w, FailOperation(w.session, op)))
  {
    ApplySafe(w, FailOperation(w.session, op));
  }

  /** The kind a call was started with is the running operation's kind. */
  ghost predicate KindMatches(w: World) {
    w.holder.Starting? || w.holder.InCall? ==>
      w.holder.op == w.session.op && w.holder.kind == w.session.kind
  }

  lemma Release(w: World)
    requires Safe(w) && (w.holder.Cancelling? ==> w.holder.reported)
    ensures Safe(w.(holder := Free))
  {
  }

  lemma FinishSafe(w: World, op: nat, id: int)
    requires Safe(w) && op == w.session.op
    ensures w.session.kind == Remove ==> Safe(Apply(w, FinishRemoval(w.session, op)))
    ensures w.session.kind == InvalidateAuthenticatorId ==>
              Safe(Apply(w, FinishInvalidation(w.session, op, id)))
  {
    if w.session.kind == Remove {
      ApplySafe(w, FinishRemoval(w.session, op));
    } else if w.session.kind == InvalidateAuthenticatorId {
      ApplySafe(w, FinishInvalidation(w.session, op, id));
    }
  }

  lemma ReturnSafe(w: World, err: int, id: int)
    requires Safe(w) && KindMatches(w)
    ensures Safe(ReturnFromModule(w, err, id))
  {
    if w.holder.InCall? {
      var op := w.holder.op;
      FinishSafe(w, op, id);
      if w.holder.kind == Remove {
        Release(Apply(w, FinishRemoval(w.session, op)));
      } else if err != 0 {
        FailSafe(w, op);
        Release(Apply(w, FailOperation(w.session, op)));
      } else if w.holder.kind == InvalidateAuthenticatorId {
        Release(Apply(w, FinishInvalidation(w.session, op, id)));
      } else {
        Release(w);
      }
    }
  }

  lemma UnsupportedSafe(w: World)
    requires Safe(w)
    ensures Safe(CallUnsupported(w))
  {
    if w.holder.Starting? {
      FailSafe(w, w.holder.op);
      Release(Apply(w, FailOperation(w.session, w.holder.op)));
    }
  }

  lemma StopSafe(w: World, op: nat)
    requires Safe(w)
    ensures Safe(RunTheStop(w, op))
  {
    if w.holder == Free && op in w.stops {
      var v := w.(stops := w.stops - multiset{op});
      assert Safe(v);
      if !v.session.detached && v.session.op == op {
        StartCancelSafe(v, op);
      }
    }
  }

  lemma NextKind(w: World, a: Action)
    requires KindMatches(w)
    ensures KindMatches(Next(w, a)) && Next(w, a).session.userId == w.session.userId
  {
    match a
    case Report(m) => MessageIsFaithful(w.session, m, w.now);
    case ChangeContext(c) =>
      var o := OnContextChanged(w.session, c, w.now);
      assert o.session.op == w.session.op && o.session.kind == w.session.kind;
    case _ =>
  }

  lemma ModuleStepSafe(w: World, a: Action)
    requires Safe(w) && KindMatches(w)
    requires a.Request? || a.CallModule? || a.Unsupported? || a.RemoveNext? || a.ModuleReturns? || a.Report?
    ensures Safe(Next(w, a))
  {
    match a
    case Request(kind, authOperationId, ids) => StartRequestSafe(w, kind, authOperationId, ids);
    case CallModule => CallSafe(w);
    case Unsupported => UnsupportedSafe(w);
    case RemoveNext => CallSafe(w);
    case ModuleReturns(err, id) => ReturnSafe(w, err, id);
    case Report(m) => ReportSafe(w, m);
  }

  lemma RearmStepSafe(w: World, a: Action)
    requires Safe(w) && KindMatches(w) && (a.RunRearm? || a.RearmReturns? || a.RunStopSensor? || a.Detach?)
    ensures Safe(Next(w, a))
  {
    match a
    case RunRearm(op) => RearmSafe(w, op);
    case RearmReturns(err) => if w.holder.Rearming? { FailSafe(w, w.holder.op); }
    case RunStopSensor(op) => StopSafe(w, op);
    case Detach(clientDied) => DetachSafe(w, clientDied);
  }

  lemma QuietStepSafe(w: World, a: Action)
    requires Safe(w) && KindMatches(w) && (a.Tick? || a.GiveContext? || a.CancelReturns?)
    ensures Safe(Next(w, a))
  {
  }

  lemma CancelStepSafe(w: World, a: Action)
    requires Safe(w) && KindMatches(w) && (a.ChangeContext? || a.Cancel?)
    ensures Safe(Next(w, a))
  {
    match a
    case ChangeContext(c) => ContextSafe(w, c);
    case Cancel(op) => if w.holder == Free && w.session.RunningOp(op) { StartCancelSafe(w, op); }
  }

  lemma NextSafe(w: World, a: Action)
    requires Safe(w) && KindMatches(w)
    ensures Safe(Next(w, a))
  {
    if a.RunRearm? || a.RearmReturns? || a.RunStopSensor? || a.Detach? { RearmStepSafe(w, a); }
    else if a.ChangeContext? || a.Cancel? { CancelStepSafe(w, a); }
    else if a.Tick? || a.GiveContext? || a.CancelReturns? { QuietStepSafe(w, a); }
    else { ModuleStepSafe(w, a); }
  }

  lemma {:induction false} RunSafe(userId: int, acts: seq<Action>)
    ensures var w := Exec(Init(userId), acts);
            Safe(w) && KindMatches(w) && w.session.userId == userId
  {
    if acts != [] {
      var before := Exec(Init(userId), acts[..|acts| - 1]);
      var a := acts[|acts| - 1];
      RunSafe(userId, acts[..|acts| - 1]);
      NextSafe(before, a);
      NextKind(before, a);
    } else {
      InitSafe(userId);
    }
  }

  lemma InitSafe(userId: int)
    ensures Safe(Init(userId)) && KindMatches(Init(userId))
  {
  }

  // ------------------------------------------------------------------------
  // The properties of every run
  // ------------------------------------------------------------------------

  /**
   An operation has at most one terminal result, and the session marks it ended exactly when
   that result went out. One that never gets a result was replaced, is still running, or
   belongs to a detached session. No callback but a lockout notice comes from an ended operation,
   and none at all follows the detach.
   */
  lemma OneResultPerOperation(userId: int, acts: seq<Action>)
    ensures
      var w := Exec(Init(userId), acts);
      var s, t := w.session, w.trace;
      && (forall i, j :: 0 <= i < j < |t| && IsResult(t[i]) && IsResult(t[j]) ==> t[i].op != t[j].op)
      && (s.op != 0 ==> (s.ended <==> HasResult(t, s.op)))
      && (forall id: nat, kind :: Begun(id, kind) in t && !HasResult(t, id) ==>
            || (exists newer, k :: newer > id && Begun(newer, k) in t)
            || s.RunningOp(id)
            || Detached in t)
      && (forall j :: 0 <= j < |t| && t[j].Sent? ==>
            (LockoutNotice(t[j].cb) || t[j].live) && Detached !in t[..j])
  {
    RunSafe(userId, acts);
    var w := Exec(Init(userId), acts);
    var s, t := w.session, w.trace;
    forall i, j | 0 <= i < j < |t| && IsResult(t[i]) && IsResult(t[j]) ensures t[i].op != t[j].op {
      assert Allowed(t[..j], t[j], userId);
      assert t[..j][i] == t[i];
    }
    forall id: nat, kind | Begun(id, kind) in t && !HasResult(t, id)
      ensures (exists newer, k :: newer > id && Begun(newer, k) in t) || s.RunningOp(id) || Detached in t
    {
      assert id <= s.op;
      if id < s.op {
        assert Begun(s.op, s.kind) in t;
      }
    }
    forall j | 0 <= j < |t| && t[j].Sent?
      ensures (LockoutNotice(t[j].cb) || t[j].live) && Detached !in t[..j]
    {
      assert Allowed(t[..j], t[j], userId);
    }
  }

  /**
   In the order of module calls, a re-arm of an operation never follows a cancel issued for it,
   the start of a later operation or the detach; a cancel never follows the start of an
   operation later than the one it is for; and the module is never asked to remove id 0.
   */
  lemma ModuleCallOrder(userId: int, acts: seq<Action>)
    ensures
      var t := Exec(Init(userId), acts).trace;
      && (forall i, j :: 0 <= i < j < |t| && t[j].Rearmed? ==>
            t[i] != Cancelled(t[j].op) && t[i] != Detached && !(t[i].Begun? && t[i].op > t[j].op))
      && (forall i, j :: 0 <= i < j < |t| && t[j].Cancelled? ==> !(t[i].Begun? && t[i].op > t[j].op))
      && (forall j :: 0 <= j < |t| && t[j].RemoveCalled? ==> t[j].id != 0)
  {
    RunSafe(userId, acts);
    var t := Exec(Init(userId), acts).trace;
    forall i, j | 0 <= i < j < |t| && (t[j].Rearmed? || t[j].Cancelled?)
      ensures !(t[i].Begun? && t[i].op > t[j].op)
      ensures t[j].Rearmed? ==> t[i] != Cancelled(t[j].op) && t[i] != Detached
    {
      assert Allowed(t[..j], t[j], userId);
      assert t[..j][i] == t[i];
    }
    forall j | 0 <= j < |t| && t[j].RemoveCalled? ensures t[j].id != 0 {
      assert Allowed(t[..j], t[j], userId);
    }
  }

  lemma NextExtends(w: World, a: Action)
    ensures w.trace <= Next(w, a).trace
  {
  }

  lemma {:induction false} RunExtends(w: World, acts: seq<Action>)
    ensures w.trace <= Exec(w, acts).trace
  {
    if acts != [] {
      RunExtends(w, acts[..|acts| - 1]);
      NextExtends(Exec(w, acts[..|acts| - 1]), acts[|acts| - 1]);
    }
  }

  lemma {:induction false} RunThenRun(w: World, a: seq<Action>, b: seq<Action>)
    ensures Exec(w, a + b) == Exec(Exec(w, a), b)
  {
    if b == [] {
      assert a + b == a;
    } else {
      var c := a + b;
      assert c[..|c| - 1] == a + b[..|b| - 1];
      RunThenRun(w, a, b[..|b| - 1]);
    }
  }

  /**
   Once the sensor was stopped after a released match of a current operation, no pending re-arm
   thread can start it again for that operation, whatever runs afterwards.
   */
  lemma NoRearmAfterStop(userId: int, before: seq<Action>, op: nat, after: seq<Action>)
    requires var w := Exec(Init(userId), before);
             w.holder == Free && op in w.stops && op == w.session.op && !w.session.detached
    ensures var w := Exec(Init(userId), before);
            var t := Exec(Init(userId), before + [RunStopSensor(op)] + after).trace;
            && |w.trace| < |t| && t[|w.trace|] == Cancelled(op)
            && forall j, id :: |w.trace| <= j < |t| ==> t[j] != Rearmed(op, id)
  {
    var w := Exec(Init(userId), before);
    var stop := before + [RunStopSensor(op)];
    RunThenRun(Init(userId), before, [RunStopSensor(op)]);
    var v := Exec(Init(userId), stop);
    assert Exec(w, [RunStopSensor(op)]) == Next(Exec(w, []), RunStopSensor(op));
    assert v.trace == w.trace + [Cancelled(op)];
    RunThenRun(Init(userId), stop, after);
    RunExtends(v, after);
    ModuleCallOrder(userId, stop + after);
  }

  /**
   A success carries a non-zero finger and a token that the module reported for this user during
   the same authentication, at most the held-match window before; it is never sent while
   press-to-auth is set and the screen is off.
   */
  lemma SuccessIsBacked(userId: int, acts: seq<Action>, j: nat)
    requires j < |Exec(Init(userId), acts).trace|
    requires var e := Exec(Init(userId), acts).trace[j]; e.Sent? && e.cb.OnAuthenticationSucceeded?
    ensures
      var t := Exec(Init(userId), acts).trace;
      && t[j].kind == Authenticate && t[j].live && !t[j].screenOff && t[j].cb.fid != 0
      && exists i :: 0 <= i < j && t[i].Matched? && t[i].op == t[j].op && t[i].gid == userId
                     && t[i].fid == t[j].cb.fid && t[i].token == t[j].cb.token
                     && 0 <= t[j].at - t[i].at <= HELD_MATCH_WINDOW_NS
  {
    RunSafe(userId, acts);
    var t := Exec(Init(userId), acts).trace;
    assert Allowed(t[..j], t[j], userId);
    var at :| HasMatch(t[..j], t[j].op, t[j].cb.fid, userId, t[j].cb.token, at)
              && 0 <= t[j].at - at <= HELD_MATCH_WINDOW_NS;
    var i :| 0 <= i < |t[..j]| && t[..j][i] == Matched(t[j].op, t[j].cb.fid, userId, t[j].cb.token, at);
    assert t[i] == t[..j][i];
  }

  /** A held match exists only while an authentication is running, and is one the module reported in it. */
  lemma HeldMatchOnlyWhileAuthenticating(userId: int, acts: seq<Action>)
    ensures
      var w := Exec(Init(userId), acts);
      var s := w.session;
      s.held.Some? ==>
        && !s.ended && s.kind == Authenticate && s.held.value.fid != 0
        && HasMatch(w.trace, s.op, s.held.value.fid, userId, s.held.value.token, s.held.value.at)
  {
    RunSafe(userId, acts);
  }
}
