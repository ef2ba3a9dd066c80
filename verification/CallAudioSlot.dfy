/**
 One slot's handler thread, the audioserver monitor that posts to it and the radio daemon it
 registers with (callaudio/src/de/diamaneos/callaudio/SlotClient.java, AudioServerMonitor.java).

 Tasks run one at a time in the order they became due. A delayed task may be overtaken by tasks
 posted after it but not by itself overtake one posted before it. What other threads do
 (setEnabled, the monitor, binder deaths) happens between tasks; a retry that a task posts after
 such an event has a step of its own.
 */
module CallAudioSlot {
  import opened Common
  import opened CallAudioRelay

  datatype Task =
    | Activate
    | Deactivate
    | Update(status: Status, sequence: int)
    | Lost(registration: nat)
    | Reconnect
    | Resend(registration: nat)
  {
    predicate IsTimer() { Reconnect? || Resend? }
    predicate IsFlip() { Activate? || Deactivate? }
  }

  /** The request object of one registration. */
  datatype Request = Request(id: nat, activation: nat, valid: bool)

  datatype World = World(
    // The monitor, guarded by its lock.
    monitorStatus: Status,
    monitorSequence: int,
    listening: bool,
    // Written by setEnabled.
    enabled: bool,
    activation: nat,
    // The slot's handler and the fields of its thread.
    queue: seq<Task>,
    relay: Option<Relay>,
    service: bool,
    request: Option<Request>,
    registrations: nat,
    // What the daemon has received in its current registration, in order.
    received: seq<Status>)
  {
    /** The registration is valid, of the current activation and not replaced. */
    predicate Current() {
      request.Some? && request.value.valid && enabled && request.value.activation == activation
    }
  }

  datatype Lookup = NotAvailable | LinkFailed | RegistrationFailed | Revoked | Registered

  datatype Step =
    | Publish(status: Status)
    | SetEnabled(value: bool)
    | BinderDied(registration: nat)
    // A send loop that was overtaken by the end of its registration posts its retry after that.
    | Overtaken(registration: nat)
    | RunTask(index: nat, lookup: Lookup, ok: nat -> bool)

  function Init(status: Status): World {
    World(status, 0, false, false, 0, [], None, false, None, 0, [])
  }

  /** handler.removeCallbacks */
  function Without(q: seq<Task>, task: Task): seq<Task> {
    if q == [] then []
    else Without(q[..|q| - 1], task) + (if q[|q| - 1] == task then [] else [q[|q| - 1]])
  }

  function Post(w: World, task: Task): World {
    w.(queue := w.queue + [task])
  }

  /** AudioServerMonitor.publish */
  function DoPublish(w: World, status: Status): World {
    if status == w.monitorStatus then w
    else
      var v := w.(monitorStatus := status, monitorSequence := w.monitorSequence + 1);
      if w.listening then Post(v, Update(status, v.monitorSequence)) else v
  }

  /** Request.invalidate: the registration is over, and its retries are removed. */
  function Invalidate(w: World): World {
    if w.request.None? then w
    else w.(request := Some(w.request.value.(valid := false)),
            queue := Without(w.queue, Resend(w.request.value.id)))
  }

  function DoSetEnabled(w: World, value: bool): World {
    if w.enabled == value then w
    else if value then Post(w.(activation := w.activation + 1, enabled := true), Activate)
    else
      var u := Invalidate(w);
      Post(u.(queue := Without(u.queue, Reconnect), activation := w.activation + 1, enabled := false,
              listening := false), Deactivate)
  }

  /** The death recipient of a registration, current or not: it invalidates that registration and posts its end. */
  function DoBinderDied(w: World, registration: nat): World {
    if registration >= w.registrations then w
    else
      var u := w.(queue := Without(w.queue, Resend(registration)));
      Post(if w.request.Some? && w.request.value.id == registration
           then u.(request := Some(w.request.value.(valid := false))) else u, Lost(registration))
  }

  function ScheduleReconnect(w: World): World {
    var v := w.(queue := Without(w.queue, Reconnect));
    if w.enabled then Post(v, Reconnect) else v
  }

  function Clear(w: World): World {
    var v := Invalidate(w);
    v.(request := None, service := false,
       relay := if v.relay.None? then None else Some(v.relay.value.OnUnregistered()))
  }

  /** SlotClient.send of what is pending. */
  function Send(w: World, ok: nat -> bool): World
    requires w.relay.Some?
  {
    if w.relay.value.Pending() == NONE || !w.service || !w.Current() then w
    else
      var id := w.request.value.id;
      var s := SendLoop(w.relay.value, ok, 0);
      var v := w.(queue := Without(w.queue, Resend(id)), relay := Some(s.relay),
                  received := w.received + s.delivered);
      if s.failed then Post(v, Resend(id)) else v
  }

  function DoUpdate(w: World, status: Status, sequence: int, ok: nat -> bool): World
  {
    if !w.enabled || w.relay.None? || sequence <= w.relay.value.sequence then w
    else
      Send(w.(relay := Some(w.relay.value.Accept(status, sequence))), ok)
  }

  function DoConnect(w: World, lookup: Lookup, ok: nat -> bool): World
  {
    if !w.enabled || w.relay.None? || (w.service && w.Current()) then w
    else match lookup
      case NotAvailable => ScheduleReconnect(w)
      case LinkFailed =>
        // The new request is dropped; the old one is forgotten with its retries left to lapse.
        ScheduleReconnect(w.(request := None, registrations := w.registrations + 1))
      case RegistrationFailed => ScheduleReconnect(Clear(Opened(w)))
      case Revoked => ScheduleReconnect(Clear(Opened(w)))
      case Registered =>
        var v := Opened(w);
        var r := v.relay.value.Accept(v.monitorStatus, v.monitorSequence).OnRegistered();
        Send(v.(relay := Some(r), received := []), ok)
  }

  /** connect() up to the registration call: a fresh request and the service it is for. */
  function Opened(w: World): World {
    w.(request := Some(Request(w.registrations, w.activation, true)),
       registrations := w.registrations + 1, service := true)
  }

  function DoActivate(w: World): World {
    if !w.enabled then w
    else ScheduleReconnect(w.(listening := true, relay := Some(NewRelay(w.monitorStatus, w.monitorSequence))))
  }

  function DoLost(w: World, registration: nat): World {
    if w.request.Some? && w.request.value.id == registration then ScheduleReconnect(Clear(w)) else w
  }

  predicate Runnable(q: seq<Task>, i: nat) {
    i < |q| && forall j :: 0 <= j < i ==> q[j].IsTimer()
  }

  function Remove(q: seq<Task>, i: nat): seq<Task>
    requires i < |q|
  {
    q[..i] + q[i + 1..]
  }

  function DoTask(w: World, task: Task, lookup: Lookup, ok: nat -> bool): World
  {
    match task
    case Activate => DoActivate(w)
    case Deactivate => Clear(w.(listening := false))
    case Update(status, sequence) => DoUpdate(w, status, sequence, ok)
    case Lost(registration) => DoLost(w, registration)
    case Reconnect => DoConnect(w, lookup, ok)
    case Resend(registration) => if w.relay.None? then w else Send(w, ok)
  }

  function Next(w: World, step: Step): World
  {
    match step
    case Publish(status) => DoPublish(w, status)
    case SetEnabled(value) => DoSetEnabled(w, value)
    case BinderDied(registration) => DoBinderDied(w, registration)
    case Overtaken(registration) => if registration < w.registrations then Post(w, Resend(registration)) else w
    case RunTask(i, lookup, ok) =>
      if !Runnable(w.queue, i) then w
      else DoTask(w.(queue := Remove(w.queue, i)), w.queue[i], lookup, ok)
  }

  ghost predicate IsRun(status: Status, ws: seq<World>, steps: seq<Step>) {
    && |ws| == |steps| + 1 && ws[0] == Init(status)
    && forall i :: 0 <= i < |steps| ==> ws[i + 1] == Next(ws[i], steps[i])
  }

  // ------------------------------------------------------------------------
  // The handler queue
  // ------------------------------------------------------------------------

  /** Read from the end, activations and deactivations alternate and the last one is setEnabled's. */
  ghost predicate Alternating(q: seq<Task>, on: bool) {
    q == [] ||
    var last, init := q[|q| - 1], q[..|q| - 1];
    if last.IsFlip() then last.Activate? == on && Alternating(init, !on) else Alternating(init, on)
  }

  /** Whether the last activation task that already ran was an activation. */
  ghost function Phase(q: seq<Task>, on: bool): bool {
    if q == [] then on
    else Phase(q[..|q| - 1], if q[|q| - 1].IsFlip() then !on else on)
  }

  /** No reconnect waits in front of an activation or deactivation. */
  ghost predicate ReconnectsLast(q: seq<Task>) {
    q == [] ||
    var last, init := q[|q| - 1], q[..|q| - 1];
    (last.IsFlip() ==> Reconnect !in init) && ReconnectsLast(init)
  }

  ghost predicate NoFlips(q: seq<Task>) {
    forall t :: t in q ==> !t.IsFlip()
  }

  lemma WithoutTimer(q: seq<Task>, task: Task, on: bool)
    requires task.IsTimer()
    ensures forall t :: t in Without(q, task) <==> t in q && t != task
    ensures Alternating(q, on) ==> Alternating(Without(q, task), on)
    ensures Phase(Without(q, task), on) == Phase(q, on)
    ensures ReconnectsLast(q) ==> ReconnectsLast(Without(q, task))
  {
    WithoutMembers(q, task);
    WithoutFlips(q, task, on);
    if ReconnectsLast(q) { WithoutReconnects(q, task); }
  }

  lemma WithoutLast(q: seq<Task>, task: Task)
    requires q != []
    ensures
      var last, init, r := q[|q| - 1], q[..|q| - 1], Without(q, task);
      && q == init + [last]
      && (last == task ==> r == Without(init, task))
      && (last != task ==> r == Without(init, task) + [last] && r[..|r| - 1] == Without(init, task) && r[|r| - 1] == last)
  {
  }

  lemma {:induction false} WithoutMembers(q: seq<Task>, task: Task)
    ensures forall t :: t in Without(q, task) <==> t in q && t != task
  {
    if q != [] {
      WithoutLast(q, task);
      WithoutMembers(q[..|q| - 1], task);
    }
  }

  lemma {:induction false} WithoutFlips(q: seq<Task>, task: Task, on: bool)
    requires task.IsTimer()
    ensures Alternating(q, on) ==> Alternating(Without(q, task), on)
    ensures Phase(Without(q, task), on) == Phase(q, on)
  {
    if q != [] {
      var last, init, r := q[|q| - 1], q[..|q| - 1], Without(q, task);
      WithoutLast(q, task);
      FlipsOf(q, init, last, on);
      WithoutFlips(init, task, if last.IsFlip() then !on else on);
      if last != task { FlipsOf(r, Without(init, task), last, on); }
    }
  }

  lemma {:induction false} WithoutReconnects(q: seq<Task>, task: Task)
    requires ReconnectsLast(q)
    ensures ReconnectsLast(Without(q, task))
  {
    if q != [] {
      WithoutLast(q, task);
      WithoutMembers(q[..|q| - 1], task);
      WithoutReconnects(q[..|q| - 1], task);
    }
  }

  lemma PostTask(q: seq<Task>, task: Task, on: bool)
    requires task.IsFlip() ==> task.Activate? == on
    ensures forall t :: t in q + [task] <==> t in q || t == task
    ensures Alternating(q, if task.IsFlip() then !on else on) ==> Alternating(q + [task], on)
    ensures Phase(q + [task], on) == Phase(q, if task.IsFlip() then !on else on)
    ensures ReconnectsLast(q) && (task.IsFlip() ==> Reconnect !in q) ==> ReconnectsLast(q + [task])
  {
    assert (q + [task])[..|q|] == q;
  }

  lemma {:induction false} NoFlipsPhase(q: seq<Task>, on: bool)
    requires NoFlips(q)
    ensures Phase(q, on) == on && Alternating(q, on)
  {
    if q != [] {
      assert q[|q| - 1] in q;
      assert forall t :: t in q[..|q| - 1] ==> t in q;
      NoFlipsPhase(q[..|q| - 1], on);
    }
  }

  /** Taking the next task out of the queue. */
  lemma TakeTask(q: seq<Task>, i: nat, on: bool)
    requires Runnable(q, i) && Alternating(q, on) && ReconnectsLast(q)
    ensures var r := Remove(q, i);
            && Alternating(r, on) && ReconnectsLast(r)
            && (forall t :: t in r ==> t in q)
            && (forall t :: t in q ==> t == q[i] || t in r)
            && (q[i].IsFlip() ==> q[i].Activate? == !Phase(q, on) && Phase(r, on) == !Phase(q, on))
            && (!q[i].IsFlip() ==> Phase(r, on) == Phase(q, on))
            && (q[i] == Reconnect ==> NoFlips(q))
  {
    TakeMembers(q, i);
    TakeFlips(q, i, on);
    TakeReconnects(q, i);
  }

  lemma TakeMembers(q: seq<Task>, i: nat)
    requires i < |q|
    ensures forall t :: t in Remove(q, i) ==> t in q
    ensures forall t :: t in q ==> t == q[i] || t in Remove(q, i)
  {
    assert q == q[..i] + [q[i]] + q[i + 1..];
  }

  lemma RemoveLast(q: seq<Task>, i: nat)
    requires i < |q|
    ensures
      var last, init, r := q[|q| - 1], q[..|q| - 1], Remove(q, i);
      && q == init + [last]
      && (i == |init| ==> r == init)
      && (i < |init| ==> init[i] == q[i] && r == Remove(init, i) + [last] && r[..|r| - 1] == Remove(init, i))
  {
  }

  lemma {:induction false} TakeFlips(q: seq<Task>, i: nat, on: bool)
    requires Runnable(q, i) && Alternating(q, on)
    ensures var r := Remove(q, i);
            && Alternating(r, on)
            && (q[i].IsFlip() ==> q[i].Activate? == !Phase(q, on) && Phase(r, on) == !Phase(q, on))
            && (!q[i].IsFlip() ==> Phase(r, on) == Phase(q, on))
  {
    var last, init, r := q[|q| - 1], q[..|q| - 1], Remove(q, i);
    RemoveLast(q, i);
    FlipsOf(q, init, last, on);
    if i == |init| {
      assert NoFlips(init);
      NoFlipsPhase(init, on);
      NoFlipsPhase(init, !on);
    } else {
      TakeFlips(init, i, if last.IsFlip() then !on else on);
      FlipsOf(r, Remove(init, i), last, on);
    }
  }

  lemma FlipsOf(q: seq<Task>, init: seq<Task>, last: Task, on: bool)
    requires q != [] && init == q[..|q| - 1] && last == q[|q| - 1]
    ensures Alternating(q, on) <==>
            if last.IsFlip() then last.Activate? == on && Alternating(init, !on) else Alternating(init, on)
    ensures Phase(q, on) == Phase(init, if last.IsFlip() then !on else on)
  {
  }

  lemma {:induction false} TakeReconnects(q: seq<Task>, i: nat)
    requires Runnable(q, i) && ReconnectsLast(q)
    ensures ReconnectsLast(Remove(q, i)) && (q[i] == Reconnect ==> NoFlips(q))
  {
    var last, init := q[|q| - 1], q[..|q| - 1];
    RemoveLast(q, i);
    if i == |init| {
      assert NoFlips(init);
    } else {
      TakeReconnects(init, i);
      TakeMembers(init, i);
      assert q[i] in init;
    }
  }

  // ------------------------------------------------------------------------
  // The invariant
  // ------------------------------------------------------------------------

  /** The daemon's last status is the one the relay believes was sent, and none came twice running. */
  ghost predicate DaemonAgrees(w: World) {
    && (w.service && w.relay.Some? ==>
          w.relay.value.lastSent == if w.received == [] then NONE else w.received[|w.received| - 1])
    && (forall i :: 0 < i < |w.received| ==> w.received[i] != w.received[i - 1])
  }

  /** What the relay knows is the monitor's status, or the update to it is on its way. */
  ghost predicate MonitorAgrees(w: World) {
    && (w.relay.Some? ==>
          && w.relay.value.sequence <= w.monitorSequence
          && (w.relay.value.sequence == w.monitorSequence ==> w.relay.value.status == w.monitorStatus)
          && (w.listening && w.relay.value.sequence < w.monitorSequence ==>
                Update(w.monitorStatus, w.monitorSequence) in w.queue))
    && (forall u :: u in w.queue && u.Update? ==>
          u.sequence <= w.monitorSequence
          && (u.sequence == w.monitorSequence ==> u.status == w.monitorStatus))
  }

  /** Nothing owed to the daemon is forgotten: it stays pending, and a retry is posted. */
  ghost predicate NothingForgotten(w: World) {
    w.service && w.relay.Some? && w.Current() ==>
      && (w.relay.value.status != w.relay.value.lastSent ==> w.relay.value.missed == w.relay.value.status)
      && (w.relay.value.Pending() != NONE ==> Resend(w.request.value.id) in w.queue)
  }

  ghost predicate FieldsOk(w: World) {
    && (w.relay.Some? ==> w.relay.value.Consistent())
    && (w.service <==> w.relay.Some? && w.relay.value.registered)
    && (w.listening ==> w.enabled && w.relay.Some?)
    && (w.request.Some? ==> w.request.value.activation <= w.activation && w.request.value.id < w.registrations)
    && Alternating(w.queue, w.enabled) && ReconnectsLast(w.queue)
    && (Reconnect in w.queue ==> w.enabled)
    && (w.service ==> Phase(w.queue, w.enabled))
  }

  ghost predicate ThreadOk(w: World) {
    FieldsOk(w) && (NoFlips(w.queue) && w.enabled ==> w.listening)
  }

  ghost predicate Inv(w: World) {
    ThreadOk(w) && DaemonAgrees(w) && MonitorAgrees(w) && NothingForgotten(w)
  }

  /** Posting a task that is no activation keeps the invariant. */
  lemma PostOk(w: World, task: Task)
    requires Inv(w) && !task.IsFlip() && (task == Reconnect ==> w.enabled)
    requires task.Update? ==>
               task.sequence <= w.monitorSequence
               && (task.sequence == w.monitorSequence ==> task.status == w.monitorStatus)
    ensures Inv(Post(w, task))
  {
    PostTask(w.queue, task, w.enabled);
  }

  /** Removing a timer keeps the invariant, unless it is the retry of the current registration. */
  lemma RequeueOk(w: World, task: Task)
    requires ThreadOk(w) && DaemonAgrees(w) && MonitorAgrees(w) && task.IsTimer()
    ensures var v := w.(queue := Without(w.queue, task));
            && ThreadOk(v) && DaemonAgrees(v) && MonitorAgrees(v)
            && (NothingForgotten(w) && !(w.request.Some? && task == Resend(w.request.value.id)) ==> NothingForgotten(v))
            && (forall t :: t in v.queue <==> t in w.queue && t != task)
  {
    WithoutTimer(w.queue, task, w.enabled);
    var v := w.(queue := Without(w.queue, task));
    assert NoFlips(v.queue) ==> NoFlips(w.queue) by {
      assert forall t :: t in w.queue && t.IsFlip() ==> t in v.queue;
    }
  }

  lemma PublishOk(w: World, status: Status)
    requires Inv(w)
    ensures Inv(DoPublish(w, status))
  {
    if status != w.monitorStatus {
      var v := w.(monitorStatus := status, monitorSequence := w.monitorSequence + 1);
      if w.listening {
        PostTask(w.queue, Update(status, v.monitorSequence), w.enabled);
      }
    }
  }

  lemma InvalidateOk(w: World)
    requires Inv(w)
    ensures Inv(Invalidate(w)) && !Invalidate(w).Current()
  {
    if w.request.Some? {
      RequeueOk(w.(request := Some(w.request.value.(valid := false))), Resend(w.request.value.id));
    }
  }

  lemma EnableOk(w: World)
    requires Inv(w) && !w.enabled
    ensures Inv(DoSetEnabled(w, true))
  {
    PostTask(w.queue, Activate, true);
    assert Activate in w.queue + [Activate];
  }

  /** With the registration invalid and no reconnect waiting, disabling posts the deactivation. */
  lemma StopOk(w: World)
    requires Inv(w) && w.enabled && Reconnect !in w.queue
    ensures Inv(Post(w.(activation := w.activation + 1, enabled := false, listening := false), Deactivate))
  {
    PostTask(w.queue, Deactivate, false);
    assert Deactivate in w.queue + [Deactivate];
  }

  function Unscheduled(w: World): World {
    w.(queue := Without(w.queue, Reconnect))
  }

  lemma UnscheduleOk(w: World)
    requires Inv(w)
    ensures Inv(Unscheduled(w)) && Reconnect !in Unscheduled(w).queue
  {
    RequeueOk(w, Reconnect);
  }

  lemma DisableOk(w: World)
    requires Inv(w) && w.enabled
    ensures Inv(DoSetEnabled(w, false))
  {
    InvalidateOk(w);
    UnscheduleOk(Invalidate(w));
    StopOk(Unscheduled(Invalidate(w)));
  }

  lemma BinderDiedOk(w: World, registration: nat)
    requires Inv(w)
    ensures Inv(DoBinderDied(w, registration))
  {
    if registration < w.registrations {
      RequeueOk(w, Resend(registration));
      var u := w.(queue := Without(w.queue, Resend(registration)));
      if w.request.Some? && w.request.value.id == registration {
        PostOk(u.(request := Some(w.request.value.(valid := false))), Lost(registration));
      } else {
        PostOk(u, Lost(registration));
      }
    }
  }

  lemma ReconnectOk(w: World)
    requires Inv(w)
    ensures Inv(ScheduleReconnect(w))
  {
    RequeueOk(w, Reconnect);
    if w.enabled { PostOk(w.(queue := Without(w.queue, Reconnect)), Reconnect); }
  }

  lemma ClearOk(w: World)
    requires Inv(w)
    ensures Inv(Clear(w)) && !Clear(w).service
  {
    InvalidateOk(w);
  }

  // ------------------------------------------------------------------------
  // Tasks. The running task has left the queue, so what it answers for may be missing there.
  // ------------------------------------------------------------------------

  /** The outcome of a send loop, before its retry is posted. */
  lemma SentOk(w: World, s: Sending)
    requires ThreadOk(w) && DaemonAgrees(w) && MonitorAgrees(w) && w.relay.Some? && w.service
    requires s.relay.Consistent() && s.relay.registered
    requires s.relay.status == w.relay.value.status && s.relay.sequence == w.relay.value.sequence
    requires s.delivered == [] ==> s.relay.lastSent == w.relay.value.lastSent
    requires s.delivered != [] ==> s.delivered[0] != w.relay.value.lastSent
                                   && s.delivered[|s.delivered| - 1] == s.relay.lastSent
    requires forall i :: 0 < i < |s.delivered| ==> s.delivered[i] != s.delivered[i - 1]
    ensures var v := w.(relay := Some(s.relay), received := w.received + s.delivered);
            ThreadOk(v) && DaemonAgrees(v) && MonitorAgrees(v)
  {
  }

  lemma RetryOk(w: World, id: nat)
    requires ThreadOk(w) && DaemonAgrees(w) && MonitorAgrees(w)
    ensures var v := Post(w, Resend(id));
            && ThreadOk(v) && DaemonAgrees(v) && MonitorAgrees(v)
            && Resend(id) in v.queue
  {
    RetryThreadOk(w, id);
    assert Resend(id) in w.queue + [Resend(id)];
    assert forall t :: t in w.queue + [Resend(id)] <==> t in w.queue || t == Resend(id);
  }

  lemma RetryThreadOk(w: World, id: nat)
    requires ThreadOk(w)
    ensures ThreadOk(Post(w, Resend(id)))
  {
    PostTask(w.queue, Resend(id), w.enabled);
    assert NoFlips(w.queue + [Resend(id)]) ==> NoFlips(w.queue);
  }

  /** Sending settles what is pending, whether or not a retry was posted before. */
  lemma SendOk(w: World, ok: nat -> bool)
    requires ThreadOk(w) && DaemonAgrees(w) && MonitorAgrees(w) && w.relay.Some?
    ensures Inv(Send(w, ok))
  {
    if w.relay.value.Pending() != NONE && w.service && w.Current() {
      var id := w.request.value.id;
      var s := SendLoop(w.relay.value, ok, 0);
      SendLoopResult(w.relay.value, ok, 0);
      RequeueOk(w, Resend(id));
      var u := w.(queue := Without(w.queue, Resend(id)));
      SentOk(u, s);
      var v := u.(relay := Some(s.relay), received := w.received + s.delivered);
      if s.failed { RetryOk(v, id); }
    }
  }

  lemma UpdateOk(w: World, status: Status, sequence: int, ok: nat -> bool)
    requires ThreadOk(w) && DaemonAgrees(w) && NothingForgotten(w)
    requires MonitorAgrees(Post(w, Update(status, sequence)))
    ensures Inv(DoUpdate(w, status, sequence, ok))
  {
    PostTask(w.queue, Update(status, sequence), w.enabled);
    assert Update(status, sequence) in w.queue + [Update(status, sequence)];
    if w.enabled && w.relay.Some? && sequence > w.relay.value.sequence {
      var v := w.(relay := Some(w.relay.value.Accept(status, sequence)));
      assert MonitorAgrees(v);
      SendOk(v, ok);
    }
  }

  lemma OpenedOk(w: World)
    requires Inv(w) && w.enabled && w.relay.Some? && Phase(w.queue, true)
    ensures Inv(Clear(Opened(w)))
  {
    var v := Opened(w);
    WithoutTimer(v.queue, Resend(w.registrations), w.enabled);
  }

  lemma ConnectOk(w: World, lookup: Lookup, ok: nat -> bool)
    requires Inv(w) && (w.enabled ==> w.relay.Some? && Phase(w.queue, true))
    ensures Inv(DoConnect(w, lookup, ok))
  {
    if w.enabled && !(w.service && w.Current()) {
      match lookup
      case NotAvailable => ReconnectOk(w);
      case LinkFailed => ReconnectOk(w.(request := None, registrations := w.registrations + 1));
      case RegistrationFailed => OpenedOk(w); ReconnectOk(Clear(Opened(w)));
      case Revoked => OpenedOk(w); ReconnectOk(Clear(Opened(w)));
      case Registered =>
        var v := Opened(w);
        var r := v.relay.value.Accept(v.monitorStatus, v.monitorSequence).OnRegistered();
        SendOk(v.(relay := Some(r), received := []), ok);
    }
  }

  lemma ActivateOk(w: World)
    requires FieldsOk(w) && DaemonAgrees(w) && MonitorAgrees(w)
    requires !w.service && Phase(w.queue, w.enabled)
    ensures Inv(DoActivate(w))
  {
    if w.enabled {
      var v := w.(listening := true, relay := Some(NewRelay(w.monitorStatus, w.monitorSequence)));
      assert Inv(v);
      ReconnectOk(v);
    }
  }

  lemma DeactivateOk(w: World)
    requires FieldsOk(w.(service := false, relay := if w.relay.None? then None else Some(w.relay.value.OnUnregistered())))
    requires DaemonAgrees(w) && MonitorAgrees(w) && !Phase(w.queue, w.enabled)
    ensures Inv(Clear(w.(listening := false)))
  {
    if NoFlips(w.queue) { NoFlipsPhase(w.queue, w.enabled); }
    var v := w.(service := false, listening := false, request := None,
                relay := if w.relay.None? then None else Some(w.relay.value.OnUnregistered()));
    assert Inv(v);
    if w.request.Some? { RequeueOk(v, Resend(w.request.value.id)); }
  }

  /** What is left of the invariant once the next task was taken out of the queue. */
  lemma TakeOk(w: World, i: nat)
    requires Inv(w) && Runnable(w.queue, i)
    ensures var task, v := w.queue[i], w.(queue := Remove(w.queue, i));
            && DaemonAgrees(v)
            && (!task.IsFlip() ==> ThreadOk(v))
            && (task.Update? ==> MonitorAgrees(Post(v, task)))
            && (!task.Update? ==> MonitorAgrees(v))
            && (!task.Resend? ==> NothingForgotten(v))
  {
    if !w.queue[i].IsFlip() { TakeThreadOk(w, i); }
    TakeMonitorOk(w, i);
    if !w.queue[i].Resend? { TakeRetryOk(w, i); }
  }

  lemma TakeThreadOk(w: World, i: nat)
    requires ThreadOk(w) && Runnable(w.queue, i) && !w.queue[i].IsFlip()
    ensures ThreadOk(w.(queue := Remove(w.queue, i)))
  {
    TakeTask(w.queue, i, w.enabled);
    var task, v := w.queue[i], w.(queue := Remove(w.queue, i));
    assert NoFlips(v.queue) ==> NoFlips(w.queue);
  }

  lemma TakeMonitorOk(w: World, i: nat)
    requires ThreadOk(w) && MonitorAgrees(w) && Runnable(w.queue, i)
    ensures var task, v := w.queue[i], w.(queue := Remove(w.queue, i));
            MonitorAgrees(if task.Update? then Post(v, task) else v)
  {
    TakeTask(w.queue, i, w.enabled);
    assert w.queue[i] in w.queue;
  }

  lemma TakeRetryOk(w: World, i: nat)
    requires ThreadOk(w) && NothingForgotten(w) && Runnable(w.queue, i) && !w.queue[i].Resend?
    ensures NothingForgotten(w.(queue := Remove(w.queue, i)))
  {
    TakeTask(w.queue, i, w.enabled);
  }

  lemma TakeFlipOk(w: World, i: nat)
    requires Inv(w) && Runnable(w.queue, i) && w.queue[i].IsFlip()
    ensures var v := w.(queue := Remove(w.queue, i));
            && (w.queue[i].Activate? ==> FieldsOk(v) && !v.service && Phase(v.queue, v.enabled))
            && (w.queue[i].Deactivate? ==>
                  && !Phase(v.queue, v.enabled)
                  && FieldsOk(v.(service := false,
                                 relay := if v.relay.None? then None else Some(v.relay.value.OnUnregistered()))))
  {
    TakeTask(w.queue, i, w.enabled);
  }

  lemma RunTaskOk(w: World, i: nat, lookup: Lookup, ok: nat -> bool)
    requires Inv(w) && Runnable(w.queue, i)
    ensures Inv(DoTask(w.(queue := Remove(w.queue, i)), w.queue[i], lookup, ok))
  {
    var task, v := w.queue[i], w.(queue := Remove(w.queue, i));
    TakeOk(w, i);
    match task
    case Activate => TakeFlipOk(w, i); ActivateOk(v);
    case Deactivate => TakeFlipOk(w, i); DeactivateOk(v);
    case Update(status, sequence) => UpdateOk(v, status, sequence, ok);
    case Lost(registration) =>
      if v.request.Some? && v.request.value.id == registration { ClearOk(v); ReconnectOk(Clear(v)); }
    case Reconnect =>
      TakeTask(w.queue, i, w.enabled);
      NoFlipsPhase(w.queue, w.enabled);
      assert task in w.queue;
      ConnectOk(v, lookup, ok);
    case Resend(registration) =>
      if v.relay.Some? { SendOk(v, ok); }
  }

  lemma NextOk(w: World, step: Step)
    requires Inv(w)
    ensures Inv(Next(w, step))
  {
    match step
    case Publish(status) => PublishOk(w, status);
    case SetEnabled(value) =>
      if w.enabled != value { if value { EnableOk(w); } else { DisableOk(w); } }
    case BinderDied(registration) => BinderDiedOk(w, registration);
    case Overtaken(registration) => PostOk(w, Resend(registration));
    case RunTask(i, lookup, ok) => if Runnable(w.queue, i) { RunTaskOk(w, i, lookup, ok); }
  }

  lemma InitOk(status: Status)
    ensures Inv(Init(status))
  {
  }

  // ------------------------------------------------------------------------
  // A registration that is over never becomes current again
  // ------------------------------------------------------------------------

  /** Registration k is the one the slot sends through. */
  predicate InForce(w: World, k: nat) {
    w.service && w.Current() && w.request.value.id == k
  }

  /** What the lemmas below need of a world. */
  ghost predicate Sane(w: World) {
    && (w.relay.Some? ==> w.relay.value.Consistent())
    && (w.request.Some? ==> w.request.value.activation <= w.activation && w.request.value.id < w.registrations)
    && (w.service ==> w.relay.Some?)
  }

  lemma SendInForce(w: World, ok: nat -> bool)
    requires Sane(w) && w.relay.Some?
    ensures var v := Send(w, ok);
            && Sane(v) && v.request == w.request && v.service == w.service
            && v.registrations == w.registrations && v.enabled == w.enabled && v.activation == w.activation
            && w.received <= v.received
            && (w.relay.value.missed != NONE && v.received == w.received ==> v.relay.value.missed != NONE)
  {
    SendLoopResult(w.relay.value, ok, 0);
  }

  /** A registration in force was in force before; while it delivers nothing, it keeps what was missed. */
  ghost predicate Lasts(w: World, v: World, k: nat) {
    && Sane(v) && w.registrations <= v.registrations
    && (InForce(v, k) ==>
          && InForce(w, k) && w.relay.Some? && w.received <= v.received
          && (w.relay.value.missed != NONE && v.received == w.received ==> v.relay.value.missed != NONE))
  }

  lemma TaskLasts(w: World, task: Task, lookup: Lookup, ok: nat -> bool, k: nat)
    requires Sane(w) && k < w.registrations
    requires task.Activate? ==> !w.service
    ensures Lasts(w, DoTask(w, task, lookup, ok), k)
  {
    match task
    case Update(status, sequence) =>
      if w.enabled && w.relay.Some? && sequence > w.relay.value.sequence {
        SendInForce(w.(relay := Some(w.relay.value.Accept(status, sequence))), ok);
      }
    case Resend(_) => if w.relay.Some? { SendInForce(w, ok); }
    case Reconnect => ConnectLasts(w, lookup, ok, k);
    case _ =>
  }

  lemma ConnectLasts(w: World, lookup: Lookup, ok: nat -> bool, k: nat)
    requires Sane(w) && k < w.registrations
    ensures Lasts(w, DoConnect(w, lookup, ok), k)
  {
    if w.enabled && w.relay.Some? && !(w.service && w.Current()) && lookup.Registered? {
      var v := Opened(w);
      var r := v.relay.value.Accept(v.monitorStatus, v.monitorSequence).OnRegistered();
      SendInForce(v.(relay := Some(r), received := []), ok);
    }
  }

  lemma StepLasts(w: World, step: Step, k: nat)
    requires Inv(w) && k < w.registrations
    ensures Lasts(w, Next(w, step), k)
  {
    if step.RunTask? && Runnable(w.queue, step.index) {
      if w.queue[step.index].Activate? { TakeFlipOk(w, step.index); }
      TaskLasts(w.(queue := Remove(w.queue, step.index)), w.queue[step.index], step.lookup, step.ok, k);
    }
  }

  lemma {:induction false} RunOk(status: Status, ws: seq<World>, steps: seq<Step>, n: nat)
    requires IsRun(status, ws, steps) && n <= |steps|
    ensures Inv(ws[n])
  {
    if n == 0 {
      InitOk(status);
    } else {
      RunOk(status, ws, steps, n - 1);
      NextOk(ws[n - 1], steps[n - 1]);
    }
  }

  lemma {:induction false} RunLasts(status: Status, ws: seq<World>, steps: seq<Step>, m: nat, n: nat, k: nat)
    requires IsRun(status, ws, steps) && m <= n <= |steps| && k < ws[m].registrations
    ensures Lasts(ws[m], ws[n], k)
    decreases n - m
  {
    RunOk(status, ws, steps, m);
    if m < n {
      StepLasts(ws[m], steps[m], k);
      RunLasts(status, ws, steps, m + 1, n, k);
    }
  }

  // ------------------------------------------------------------------------
  // The properties of every run
  // ------------------------------------------------------------------------

  /** In a registration the daemon never receives the same status twice running. */
  lemma NeverTwiceRunning(status: Status, ws: seq<World>, steps: seq<Step>, n: nat)
    requires IsRun(status, ws, steps) && n <= |steps|
    ensures forall i :: 0 < i < |ws[n].received| ==> ws[n].received[i] != ws[n].received[i - 1]
  {
    RunOk(status, ws, steps, n);
  }

  /**
   Once a status other than the daemon's last one was handled, something stays pending and a retry
   stays posted for as long as the registration lasts and delivers nothing, whatever the
   audioserver does in between.
   */
  lemma LostChangeStaysPending(status: Status, ws: seq<World>, steps: seq<Step>, m: nat, n: nat, k: nat)
    requires IsRun(status, ws, steps) && m <= n <= |steps|
    requires InForce(ws[m], k) && ws[m].relay.Some? && ws[m].received != []
    requires ws[m].relay.value.status != ws[m].received[|ws[m].received| - 1]
    requires InForce(ws[n], k) && ws[n].received == ws[m].received
    ensures ws[n].relay.Some? && ws[n].relay.value.Pending() != NONE && Resend(k) in ws[n].queue
  {
    RunOk(status, ws, steps, m);
    RunOk(status, ws, steps, n);
    RunLasts(status, ws, steps, m, n, k);
  }

  /** What a step does to the relay of a registration that stays in force: it may take a status, and may send. */
  ghost predicate IsRelayed(w: World, v: World, r: Relay, ok: nat -> bool) {
    && w.relay.Some? && v.relay.Some? && r.status == v.relay.value.status
    && r.lastSent == w.relay.value.lastSent && r.missed == w.relay.value.missed && r.registered == w.relay.value.registered
    && ((v.relay.value == r && v.received == w.received)
        || (v.relay.value == SendLoop(r, ok, 0).relay && v.received == w.received + SendLoop(r, ok, 0).delivered))
  }

  lemma SendRelays(w: World, u: World, ok: nat -> bool)
    requires w.relay.Some? && u.relay.Some? && u.relay.value.Consistent() && u.received == w.received
    requires u.relay.value.lastSent == w.relay.value.lastSent && u.relay.value.missed == w.relay.value.missed
    requires u.relay.value.registered == w.relay.value.registered
    ensures IsRelayed(w, Send(u, ok), u.relay.value, ok)
  {
    SendLoopResult(u.relay.value, ok, 0);
  }

  lemma TaskRelays(w: World, task: Task, lookup: Lookup, ok: nat -> bool, k: nat) returns (r: Relay)
    requires FieldsOk(w) && InForce(w, k) && InForce(DoTask(w, task, lookup, ok), k) && !task.IsFlip()
    ensures IsRelayed(w, DoTask(w, task, lookup, ok), r, ok)
  {
    r := w.relay.value;
    match task
    case Update(status, sequence) =>
      if sequence > r.sequence {
        var u := w.(relay := Some(r.Accept(status, sequence)));
        r := u.relay.value;
        SendRelays(w, u, ok);
      }
    case Resend(_) => SendRelays(w, w, ok);
    case Lost(_) =>
    case Reconnect =>
  }

  lemma FlipEnds(w: World, i: nat, lookup: Lookup, ok: nat -> bool, k: nat)
    requires Inv(w) && Runnable(w.queue, i) && w.queue[i].IsFlip() && InForce(w, k)
    ensures !InForce(Next(w, RunTask(i, lookup, ok)), k)
  {
    FlipIsOff(w, i);
    var v := w.(queue := Remove(w.queue, i));
    assert Next(w, RunTask(i, lookup, ok)) == Clear(v.(listening := false));
  }

  /** While there is a service, the next activation task is a deactivation. */
  lemma FlipIsOff(w: World, i: nat)
    requires Inv(w) && Runnable(w.queue, i) && w.queue[i].IsFlip() && w.service
    ensures w.queue[i].Deactivate?
  {
    TakeFlipOk(w, i);
  }

  lemma StepRelays(w: World, step: Step, k: nat) returns (r: Relay, ok: nat -> bool)
    requires Inv(w) && InForce(w, k) && InForce(Next(w, step), k)
    ensures IsRelayed(w, Next(w, step), r, ok)
  {
    r, ok := w.relay.value, (n: nat) => true;
    if step.RunTask? && Runnable(w.queue, step.index) {
      var i := step.index;
      ok := step.ok;
      if w.queue[i].IsFlip() { FlipEnds(w, i, step.lookup, step.ok, k); }
      else {
        var u := w.(queue := Remove(w.queue, i));
        TakeThreadOk(w, i);
        r := TaskRelays(u, w.queue[i], step.lookup, step.ok, k);
      }
    }
  }

  /** The replay, one step on. */
  lemma StepReplays(w: World, step: Step, k: nat, lost: Status, back: Status, before: seq<Status>, since: seq<Status>)
    returns (since2: seq<Status>)
    requires Inv(w) && InForce(w, k) && InForce(Next(w, step), k) && lost != back && w.received == before + since
    requires w.relay.Some? && Replays(w.relay.value.(status := back), lost, back, since)
    requires Next(w, step).relay.Some? && Next(w, step).relay.value.status == back
    ensures Next(w, step).received == before + since2 && Replays(Next(w, step).relay.value, lost, back, since2)
  {
    var r, ok := StepRelays(w, step, k);
    var v, s := Next(w, step), SendLoop(r, ok, 0);
    if v.relay.value == r && v.received == w.received { since2 := since; }
    else {
      ReplayGoesOn(r, lost, back, since, ok);
      since2 := since + s.delivered;
      assert before + since + s.delivered == before + since2;
    }
  }

  lemma {:induction false} ReplaysUpTo(status: Status, ws: seq<World>, steps: seq<Step>, m: nat, n: nat, k: nat,
                                       lost: Status, back: Status, before: seq<Status>) returns (since: seq<Status>)
    requires IsRun(status, ws, steps) && m < n <= |steps| && InForce(ws[m], k) && InForce(ws[n], k)
    requires ws[m].relay.Some? && ws[m].relay.value.status == lost != back
    requires ws[m].received == before && before != [] && before[|before| - 1] == back
    requires forall j :: m < j <= n ==> ws[j].relay.Some? && ws[j].relay.value.status == back
    ensures ws[n].received == before + since && Replays(ws[n].relay.value, lost, back, since)
    decreases n
  {
    RunOk(status, ws, steps, n - 1);
    StaysInForce(status, ws, steps, m, n - 1, n, k);
    var w, earlier := ws[n - 1], [];
    if m < n - 1 { earlier := ReplaysUpTo(status, ws, steps, m, n - 1, k, lost, back, before); }
    else { ReplayStarts(w, k, lost, back, before); }
    assert ws[n] == Next(w, steps[n - 1]);
    since := StepReplays(w, steps[n - 1], k, lost, back, before, earlier);
  }

  lemma ReplayStarts(w: World, k: nat, lost: Status, back: Status, before: seq<Status>)
    requires Inv(w) && InForce(w, k) && w.relay.Some? && w.relay.value.status == lost != back
    requires w.received == before && before != [] && before[|before| - 1] == back
    ensures w.received == before + [] && Replays(w.relay.value.(status := back), lost, back, [])
  {
  }

  /** A registration in force at two times is in force in between. */
  lemma StaysInForce(status: Status, ws: seq<World>, steps: seq<Step>, m: nat, j: nat, n: nat, k: nat)
    requires IsRun(status, ws, steps) && m <= j <= n <= |steps| && InForce(ws[m], k) && InForce(ws[n], k)
    ensures InForce(ws[j], k)
  {
    RunOk(status, ws, steps, m);
    RunLasts(status, ws, steps, m, j, k);
    RunLasts(status, ws, steps, j, n, k);
  }

  /**
   In a registration whose last received status is `back`, a different status was handled and did
   not arrive, and then the audioserver is back: however often sending fails, the daemon next
   receives the lost status and then `back`, and until it has both a retry is posted.
   */
  lemma LostPairIsReplayed(status: Status, ws: seq<World>, steps: seq<Step>, m: nat, n: nat, k: nat, lost: Status,
                           back: Status)
    requires IsRun(status, ws, steps) && m < n <= |steps| && InForce(ws[m], k) && InForce(ws[n], k)
    requires ws[m].relay.Some? && ws[m].relay.value.status == lost != back
    requires ws[m].received != [] && ws[m].received[|ws[m].received| - 1] == back
    requires forall j :: m < j <= n ==> ws[j].relay.Some? && ws[j].relay.value.status == back
    ensures
      var w, before := ws[n], ws[m].received;
      || (w.received == before && w.relay.value.Pending() == lost && Resend(k) in w.queue)
      || (w.received == before + [lost] && w.relay.value.Pending() == back && Resend(k) in w.queue)
      || (w.received == before + [lost, back] && w.relay.value.Pending() == NONE)
  {
    var since := ReplaysUpTo(status, ws, steps, m, n, k, lost, back, ws[m].received);
    RunOk(status, ws, steps, n);
    assert ws[m].received + [] == ws[m].received;
  }

  /**
   When every posted status was handled and nothing is pending, the last status the registered
   daemon received is the monitor's.
   */
  lemma DrainedIsCurrent(status: Status, ws: seq<World>, steps: seq<Step>, n: nat)
    requires IsRun(status, ws, steps) && n <= |steps|
    requires ws[n].service && ws[n].Current() && ws[n].relay.Some? && ws[n].relay.value.Pending() == NONE
    requires forall t :: t in ws[n].queue ==> t.IsTimer() || t.Lost?
    ensures ws[n].received != [] && ws[n].received[|ws[n].received| - 1] == ws[n].monitorStatus
  {
    RunOk(status, ws, steps, n);
  }
}
