/**
 The slot client and the audioserver monitor as objects whose methods take the steps of the
 CallAudioSlot model (callaudio/src/de/diamaneos/callaudio/SlotClient.java,
 AudioServerMonitor.java).
 */
module CallAudioClient {
  import opened Common
  import opened CallAudioRelay
  import opened CallAudioSlot

  /** The monitor, with the slot as its one listener. */
  class AudioServerMonitor {
    var status: Status
    var sequence: int
    var listening: bool

    constructor (status: Status)
      ensures this.status == status && sequence == 0 && !listening
    {
      this.status, sequence, listening := status, 0, false;
    }

    method AddListener() returns (s: Status, n: int)
      modifies this
      ensures listening && status == old(status) && sequence == old(sequence) && s == status && n == sequence
    {
      listening := true;
      return status, sequence;
    }

    method RemoveListener()
      modifies this
      ensures !listening && status == old(status) && sequence == old(sequence)
    {
      listening := false;
    }
  }

  class SlotClient {
    const monitor: AudioServerMonitor
    var enabled: bool
    var activation: nat
    var queue: seq<Task>
    var relay: StatusRelay?
    var service: bool
    var request: Option<Request>
    var registrations: nat
    // What the daemon has received in its current registration.
    var received: seq<Status>

    ghost function View(): World
      reads this, monitor, relay
    {
      World(monitor.status, monitor.sequence, monitor.listening, enabled, activation, queue,
            if relay == null then None else Some(relay.View()), service, request, registrations, received)
    }

    /** What holds between any two steps of a run. */
    ghost predicate Valid()
      reads this, monitor, relay
    {
      Inv(View())
    }

    constructor (monitor: AudioServerMonitor)
      requires monitor.sequence == 0 && !monitor.listening
      ensures Valid() && View() == Init(monitor.status) && this.monitor == monitor && relay == null
    {
      this.monitor := monitor;
      enabled, activation, queue, relay := false, 0, [], null;
      service, request, registrations, received := false, None, 0, [];
      new;
      InitOk(monitor.status);
    }

    method PostTask(task: Task)
      modifies this`queue
      ensures View() == Post(old(View()), task)
    {
      queue := queue + [task];
    }

    method RemoveCallbacks(task: Task)
      modifies this`queue
      ensures queue == Without(old(queue), task)
    {
      var kept, i := [], 0;
      while i < |queue|
        invariant 0 <= i <= |queue| && kept == Without(queue[..i], task)
      {
        assert queue[..i + 1][..i] == queue[..i];
        if queue[i] != task { kept := kept + [queue[i]]; }
        i := i + 1;
      }
      assert queue[..i] == queue;
      queue := kept;
    }

    /** The monitor publishes a status; it posts to its listener while it holds its lock. */
    method OnPublish(newStatus: Status)
      requires Valid()
      modifies this`queue, monitor
      ensures Valid() && View() == DoPublish(old(View()), newStatus)
    {
      PublishOk(View(), newStatus);
      if newStatus == monitor.status { return; }
      monitor.status := newStatus;
      monitor.sequence := monitor.sequence + 1;
      if monitor.listening { PostTask(Update(monitor.status, monitor.sequence)); }
    }

    method InvalidateRequest()
      modifies this`queue, this`request
      ensures View() == Invalidate(old(View()))
    {
      if request.None? { return; }
      request := Some(request.value.(valid := false));
      RemoveCallbacks(Resend(request.value.id));
    }

    method ScheduleAgain()
      modifies this`queue
      ensures View() == ScheduleReconnect(old(View()))
    {
      RemoveCallbacks(Reconnect);
      if enabled { PostTask(Reconnect); }
    }

    /** The fence around a registration that setEnabled(false) puts up at once. */
    method Fence()
      modifies this`queue, this`request, monitor
      ensures
        var u := Invalidate(old(View()));
        View() == u.(queue := Without(u.queue, Reconnect), listening := false)
    {
      InvalidateRequest();
      monitor.RemoveListener();
      RemoveCallbacks(Reconnect);
    }

    method SwitchTo(value: bool)
      modifies this, monitor
      ensures View() == DoSetEnabled(old(View()), value) && relay == old(relay)
    {
      if enabled == value { return; }
      activation, enabled := activation + 1, value;
      if !value { Fence(); }
      PostTask(if value then Activate else Deactivate);
    }

    method SetOn(value: bool)
      requires Valid()
      modifies this, monitor
      ensures Valid() && View() == DoSetEnabled(old(View()), value) && relay == old(relay)
    {
      NextOk(View(), SetEnabled(value));
      SwitchTo(value);
    }

    method FenceDead(registration: nat)
      modifies this`queue, this`request
      ensures View() == DoBinderDied(old(View()), registration)
    {
      if registration >= registrations { return; }
      RemoveCallbacks(Resend(registration));
      if request.Some? && request.value.id == registration { request := Some(request.value.(valid := false)); }
      PostTask(Lost(registration));
    }

    /** The daemon's binder died: the registration is fenced at once, the rest is left to the slot's thread. */
    method OnDied(registration: nat)
      requires Valid()
      modifies this`queue, this`request
      ensures Valid() && View() == DoBinderDied(old(View()), registration)
    {
      BinderDiedOk(View(), registration);
      FenceDead(registration);
    }

    method ClearAll()
      modifies this, relay
      ensures View() == Clear(old(View())) && relay == old(relay)
    {
      InvalidateRequest();
      request, service := None, false;
      if relay != null { relay.OnUnregistered(); }
    }

    method SendPending(ok: nat -> bool)
      requires relay != null
      modifies this, relay
      ensures View() == Send(old(View()), ok) && relay == old(relay)
    {
      var status := relay.Pending();
      if status == NONE || !service || request.None? || !request.value.valid || !enabled
         || request.value.activation != activation {
        return;
      }
      RemoveCallbacks(Resend(request.value.id));
      var delivered, failed := relay.Send(ok);
      received := received + delivered;
      if failed { PostTask(Resend(request.value.id)); }
    }

    method RunActivate()
      modifies this, monitor
      ensures View() == DoActivate(old(View()))
      ensures relay == old(relay) || fresh(relay)
    {
      if !enabled { return; }
      monitor.RemoveListener();
      var status, sequence := monitor.AddListener();
      relay := new StatusRelay(status, sequence);
      ScheduleAgain();
    }

    method RunUpdate(status: Status, sequence: int, ok: nat -> bool)
      modifies this, relay
      ensures View() == DoUpdate(old(View()), status, sequence, ok) && relay == old(relay)
    {
      if !enabled || relay == null { return; }
      var send := relay.OnAudioStatus(status, sequence);
      if send != NONE { SendPending(ok); }
    }

    /** A fresh request and the service it is for. */
    method Open()
      modifies this`request, this`registrations, this`service
      ensures View() == Opened(old(View()))
    {
      request := Some(Request(registrations, activation, true));
      registrations, service := registrations + 1, true;
    }

    /** The daemon accepted the registration: it gets the current status first. */
    method Start(ok: nat -> bool)
      requires relay != null
      modifies this, relay
      ensures relay == old(relay)
      ensures
        var v := old(View());
        var r := v.relay.value.Accept(v.monitorStatus, v.monitorSequence).OnRegistered();
        View() == Send(v.(relay := Some(r), received := []), ok)
    {
      received := [];
      var _ := relay.OnAudioStatus(monitor.status, monitor.sequence);
      var _ := relay.OnRegistered();
      SendPending(ok);
    }

    method Connect(lookup: Lookup, ok: nat -> bool)
      modifies this, relay
      ensures View() == DoConnect(old(View()), lookup, ok) && relay == old(relay)
    {
      if !enabled || relay == null { return; }
      if service && request.Some? && request.value.valid && request.value.activation == activation { return; }
      match lookup
      case NotAvailable => ScheduleAgain();
      case LinkFailed =>
        request, registrations := None, registrations + 1;
        ScheduleAgain();
      case RegistrationFailed =>
        Open();
        ClearAll();
        ScheduleAgain();
      case Revoked =>
        Open();
        ClearAll();
        ScheduleAgain();
      case Registered =>
        Open();
        Start(ok);
    }

    method RunLost(registration: nat)
      modifies this, relay
      ensures View() == DoLost(old(View()), registration) && relay == old(relay)
    {
      if request.None? || request.value.id != registration { return; }
      ClearAll();
      ScheduleAgain();
    }

    /** One task of the slot's thread. */
    method Perform(task: Task, lookup: Lookup, ok: nat -> bool)
      modifies this, monitor, relay
      ensures View() == DoTask(old(View()), task, lookup, ok)
    {
      match task
      case Activate => RunActivate();
      case Deactivate => monitor.RemoveListener(); ClearAll();
      case Update(status, sequence) => RunUpdate(status, sequence, ok);
      case Lost(registration) => RunLost(registration);
      case Reconnect => Connect(lookup, ok);
      case Resend(_) => if relay != null { SendPending(ok); }
    }

    /** The slot's thread takes a task that is due and runs it. */
    method RunNext(index: nat, lookup: Lookup, ok: nat -> bool)
      requires Valid() && Runnable(queue, index)
      modifies this, monitor, relay
      ensures Valid() && View() == Next(old(View()), RunTask(index, lookup, ok))
    {
      NextOk(View(), RunTask(index, lookup, ok));
      var task := queue[index];
      queue := Remove(queue, index);
      Perform(task, lookup, ok);
    }
  }
}
