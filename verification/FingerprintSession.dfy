/**
 The operation state of one fingerprint session (fingerprint/Session.cpp).

 Each function below is one critical section under the session's state lock: it maps the
 guarded fields to their new values and to the callback the section sends, if any.
 Class SessionHal runs the same sections as updates of mutable fields.
 */
module FingerprintSession {
  import opened Common

  type Token = nat

  datatype OpKind =
    | NoKind | Enroll | Authenticate | DetectInteraction | Enumerate | Remove
    | InvalidateAuthenticatorId | ResetLockout

  datatype Display = UnknownDisplay | LockScreen | NoUi | ScreenSaver | Aod

  /** What an operation context says about press-to-auth: nothing, or a new setting. */
  datatype Context = Context(display: Display, pressToAuth: Option<bool>)

  datatype Message =
    | ErrorMsg(code: int)
    | AcquiredMsg(info: int)
    | EnrollingMsg(fid: int, gid: int, remaining: int)
    | RemovedMsg(fid: int)
    | AuthenticatedMsg(fid: int, gid: int, token: Token)
    | EnumeratingMsg(fid: int, remaining: int)
    | LockoutMsg(lockout: int, duration: int)
    | InteractionMsg
    | UnknownMsg

  datatype Callback =
    | OnError(error: int, vendor: int)
    | OnAcquired(info: int, vendor: int)
    | OnEnrollmentProgress(fid: int, remaining: int)
    | OnAuthenticationSucceeded(fid: int, token: Token)
    | OnAuthenticationFailed
    | OnInteractionDetected
    | OnEnrollmentsEnumerated(ids: seq<int>)
    | OnEnrollmentsRemoved(ids: seq<int>)
    | OnAuthenticatorIdInvalidated(id: int)
    | OnLockoutTimed(duration: int)
    | OnLockoutPermanent
    | OnLockoutCleared

  // Errors 1 to 6 have the same number on both sides.
  const HW_UNAVAILABLE := 1
  const UNABLE_TO_PROCESS := 2
  const CANCELED := 5
  const UNABLE_TO_REMOVE := 6
  const VENDOR := 7
  const VENDOR_BASE := 1000
  // Legacy acquired codes 0 (good) to 5 (too fast) are one lower than AIDL's.
  const ACQUIRED_TOO_FAST := 5
  const ACQUIRED_INSUFFICIENT := 3
  const ACQUIRED_VENDOR := 7

  const LOCKOUT_TIMED := 0
  const LOCKOUT_PERMANENT := 1
  const LOCKOUT_CLEARED := 2

  /** The oldest a held match may be when it is handed out, in nanoseconds. */
  const HELD_MATCH_WINDOW_NS := 1_000_000_000

  datatype HeldMatch = HeldMatch(fid: int, token: Token, at: int)

  datatype Session = Session(
    userId: int,
    nextOp: nat,
    op: nat,
    kind: OpKind,
    ended: bool,
    detached: bool,
    enumerated: seq<int>,
    removed: seq<int>,
    authOperationId: int,
    pressToAuth: bool,
    display: Display,
    held: Option<HeldMatch>)
  {
    predicate RunningOp(id: nat) {
      !detached && op == id && !ended
    }

    predicate RunningKind(k: OpKind) {
      !ended && kind == k
    }

    predicate ScreenOff() {
      pressToAuth && (display == NoUi || display == Aod)
    }

    predicate ScreenGated() {
      RunningKind(Authenticate) && ScreenOff()
    }

    function End(): Session {
      this.(ended := true, held := None)
    }
  }

  function Fresh(userId: int): Session {
    Session(userId, 0, 0, NoKind, true, false, [], [], 0, false, UnknownDisplay, None)
  }

  /** What every section keeps: the running operation is the newest, and a match is held only in an authentication. */
  predicate IsSound(s: Session) {
    && s.op == s.nextOp && (s.op == 0 ==> s.ended)
    && (s.held.Some? ==> s.RunningKind(Authenticate) && s.held.value.fid != 0)
  }

  /** The result of one critical section. */
  datatype Outcome = Outcome(session: Session, sent: Option<Callback>, rearm: bool, released: bool)

  function Quiet(s: Session): Outcome {
    Outcome(s, None, false, false)
  }

  function Says(s: Session, cb: Callback): Outcome {
    Outcome(s, Some(cb), false, false)
  }

  function BeginOperation(s: Session, kind: OpKind): Session {
    if s.detached then s
    else s.(nextOp := s.nextOp + 1, op := s.nextOp + 1, kind := kind, ended := false,
            enumerated := [], removed := [], held := None)
  }

  function FailOperation(s: Session, op: nat): Outcome {
    if s.RunningOp(op) then Says(s.End(), OnError(UNABLE_TO_PROCESS, 0)) else Quiet(s)
  }

  function ToAidlError(code: int): Callback {
    if HW_UNAVAILABLE <= code <= UNABLE_TO_REMOVE then OnError(code, 0)
    else if code >= VENDOR_BASE then OnError(VENDOR, code - VENDOR_BASE)
    else OnError(UNABLE_TO_PROCESS, 0)
  }

  function ToAidlAcquired(info: int): Callback {
    if 0 <= info <= ACQUIRED_TOO_FAST then OnAcquired(info + 1, 0)
    else if info >= VENDOR_BASE then OnAcquired(ACQUIRED_VENDOR, info - VENDOR_BASE)
    else OnAcquired(ACQUIRED_INSUFFICIENT, 0)
  }

  function OnMatch(s: Session, fid: int, gid: int, token: Token, now: int): Outcome {
    if s.RunningKind(DetectInteraction) then Says(s.End(), OnInteractionDetected)
    else if !s.RunningKind(Authenticate) then Quiet(s)
    else if s.ScreenGated() then
      if fid != 0 && gid == s.userId
      then Outcome(s.(held := Some(HeldMatch(fid, token, now))), None, true, false)
      else Quiet(s)
    else if fid == 0 || gid != s.userId then Says(s, OnAuthenticationFailed)
    else Says(s.End(), OnAuthenticationSucceeded(fid, token))
  }

  function OnLockout(s: Session, lockout: int, duration: int): Outcome {
    var scanning := s.RunningKind(Authenticate) || s.RunningKind(DetectInteraction);
    if lockout == LOCKOUT_TIMED then Says(if scanning then s.End() else s, OnLockoutTimed(duration))
    else if lockout == LOCKOUT_PERMANENT then Says(if scanning then s.End() else s, OnLockoutPermanent)
    else if lockout == LOCKOUT_CLEARED then
      Says(if s.RunningKind(ResetLockout) then s.End() else s, OnLockoutCleared)
    else Quiet(s)
  }

  function OnEnumerating(s: Session, fid: int, remaining: int): Outcome {
    if !s.RunningKind(Enumerate) then Quiet(s)
    else
      var ids := if fid != 0 then s.enumerated + [fid] else s.enumerated;
      if remaining == 0
      then Says(s.(enumerated := []).End(), OnEnrollmentsEnumerated(ids))
      else Quiet(s.(enumerated := ids))
  }

  function OnMessage(s: Session, m: Message, now: int): Outcome {
    if s.detached then Quiet(s)
    else match m
      case ErrorMsg(code) => if s.ended then Quiet(s) else Says(s.End(), ToAidlError(code))
      case AcquiredMsg(info) =>
        if !s.RunningKind(Enroll) && !s.RunningKind(Authenticate) && !s.RunningKind(DetectInteraction)
        then Quiet(s)
        else if s.ScreenGated() then Quiet(s)
        else Says(s, ToAidlAcquired(info))
      case EnrollingMsg(fid, gid, remaining) =>
        if !s.RunningKind(Enroll) || gid != s.userId then Quiet(s)
        else Says(if remaining == 0 then s.End() else s, OnEnrollmentProgress(fid, remaining))
      case RemovedMsg(fid) =>
        if s.RunningKind(Remove) && fid != 0 then Quiet(s.(removed := s.removed + [fid])) else Quiet(s)
      case AuthenticatedMsg(fid, gid, token) => OnMatch(s, fid, gid, token, now)
      case EnumeratingMsg(fid, remaining) => OnEnumerating(s, fid, remaining)
      case LockoutMsg(lockout, duration) => OnLockout(s, lockout, duration)
      case InteractionMsg =>
        if s.RunningKind(DetectInteraction) then Says(s.End(), OnInteractionDetected) else Quiet(s)
      case UnknownMsg => Quiet(s)
  }

  function UpdateContext(s: Session, c: Context): Session {
    match c.pressToAuth
    case None => s.(display := c.display)
    case Some(enabled) => s.(display := c.display, pressToAuth := enabled)
  }

  function OnContextChanged(s: Session, c: Context, now: int): Outcome {
    var u := UpdateContext(s, c);
    if u.detached || u.ended || u.held.None? || u.ScreenGated() then Quiet(u)
    else
      var h := u.held.value;
      if now - h.at <= HELD_MATCH_WINDOW_NS
      then Outcome(u.End(), Some(OnAuthenticationSucceeded(h.fid, h.token)), false, true)
      else Quiet(u.(held := None))
  }

  /** The last section of removeEnrollments. */
  function FinishRemoval(s: Session, op: nat): Outcome {
    if s.RunningOp(op) then Says(s.(removed := []).End(), OnEnrollmentsRemoved(s.removed)) else Quiet(s)
  }

  /** The last section of invalidateAuthenticatorId after a successful module call. */
  function FinishInvalidation(s: Session, op: nat, id: int): Outcome {
    if s.RunningOp(op) then Says(s.End(), OnAuthenticatorIdInvalidated(id)) else Quiet(s)
  }

  /** What ends an operation of a kind, as the session promises the framework. */
  predicate Terminal(kind: OpKind, cb: Callback) {
    match cb
    case OnError(_, _) => true
    case OnEnrollmentProgress(_, remaining) => kind == Enroll && remaining == 0
    case OnAuthenticationSucceeded(_, _) => kind == Authenticate
    case OnInteractionDetected => kind == DetectInteraction
    case OnEnrollmentsEnumerated(_) => kind == Enumerate
    case OnEnrollmentsRemoved(_) => kind == Remove
    case OnAuthenticatorIdInvalidated(_) => kind == InvalidateAuthenticatorId
    case OnLockoutTimed(_) => kind == Authenticate || kind == DetectInteraction
    case OnLockoutPermanent => kind == Authenticate || kind == DetectInteraction
    case OnLockoutCleared => kind == ResetLockout
    case _ => false
  }

  /** Lockout state is relayed to the framework also when no operation is running. */
  predicate LockoutNotice(cb: Callback) {
    cb.OnLockoutTimed? || cb.OnLockoutPermanent? || cb.OnLockoutCleared?
  }

  /** A section keeps the operation's identity, and ends it exactly by sending its terminal result. */
  ghost predicate Faithful(s: Session, o: Outcome) {
    && o.session.userId == s.userId && o.session.nextOp == s.nextOp
    && o.session.op == s.op && o.session.kind == s.kind && o.session.detached == s.detached
    && (s.ended ==> o.session.ended)
    && (!s.ended ==> (o.session.ended <==> o.sent.Some? && Terminal(s.kind, o.sent.value)))
    && (o.sent.Some? ==> !s.detached && (LockoutNotice(o.sent.value) || !s.ended))
    && (o.rearm || o.released ==> !s.detached && !s.ended)
    && (o.released ==> o.session.ended)
  }

  lemma MessageIsFaithful(s: Session, m: Message, now: int)
    ensures Faithful(s, OnMessage(s, m, now))
  {
  }

  lemma ContextChangeIsFaithful(s: Session, c: Context, now: int)
    requires s.held.Some? ==> s.RunningKind(Authenticate)
    ensures Faithful(s, OnContextChanged(s, c, now))
  {
  }
}
