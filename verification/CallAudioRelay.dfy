/**
 One slot's relay of audioserver statuses to the radio daemon
 (callaudio/src/de/diamaneos/callaudio/StatusRelay.java), and the loop that sends it over an
 unreliable one-way call (SlotClient.java).
 */
module CallAudioRelay {

  const NONE := -1

  /** An AudioError value: any status but the marker for "none". */
  type Status = s: int | s != NONE witness 0

  datatype Relay = Relay(status: Status, sequence: int, lastSent: int, missed: int, registered: bool)
  {
    /** What the daemon is owed first: the status itself, or one it missed before coming back to it. */
    function Pending(): int {
      if !registered then NONE else if status != lastSent then status else missed
    }

    function Accept(newStatus: Status, newSequence: int): Relay {
      if newSequence <= sequence then this else this.(status := newStatus, sequence := newSequence)
    }

    function OnRegistered(): Relay {
      this.(registered := true, lastSent := NONE, missed := NONE)
    }

    function OnUnregistered(): Relay {
      this.(registered := false)
    }

    function OnSent(sent: Status): Relay {
      this.(lastSent := sent, missed := NONE)
    }

    function OnSendFailed(failed: Status): Relay {
      if failed != lastSent then this.(missed := failed) else this
    }

    /** A missed status is one the daemon does not have. */
    predicate Consistent() {
      missed != NONE ==> missed != lastSent
    }

    /** How many sends can still succeed before nothing is pending. */
    function Backlog(): nat {
      if Pending() == NONE then 0 else if Pending() == status then 1 else 2
    }
  }

  function NewRelay(status: Status, sequence: int): Relay {
    Relay(status, sequence, NONE, NONE, false)
  }

  /** What the send loop did: the relay afterwards, the statuses that arrived, whether a call failed. */
  datatype Sending = Sending(relay: Relay, delivered: seq<Status>, failed: bool)

  /** ok(k) says whether the k-th call of the loop reaches the daemon. */
  function SendLoop(r: Relay, ok: nat -> bool, k: nat): Sending
    decreases r.Backlog()
  {
    if r.Pending() == NONE then Sending(r, [], false)
    else
      var status := r.Pending();
      if !ok(k) then Sending(r.OnSendFailed(status), [], true)
      else
        var rest := SendLoop(r.OnSent(status), ok, k + 1);
        rest.(delivered := [status] + rest.delivered)
  }

  /**
   A send loop delivers at most two statuses, none equal to the one before it, and ends with
   nothing pending unless a call failed, in which case the failed status is not forgotten.
   */
  lemma {:induction false} SendLoopResult(r: Relay, ok: nat -> bool, k: nat)
    requires r.Consistent()
    ensures var s := SendLoop(r, ok, k);
            && |s.delivered| <= r.Backlog() <= 2
            && s.relay.Consistent()
            && s.relay.registered == r.registered
            && s.relay.status == r.status && s.relay.sequence == r.sequence
            && (s.failed <==> s.relay.Pending() != NONE)
            && (s.delivered == [] ==> s.relay.lastSent == r.lastSent)
            && (s.failed ==> s.relay.missed != NONE)
            && (s.relay.registered && s.relay.status != s.relay.lastSent ==> s.relay.missed == s.relay.status)
            && (s.delivered != [] ==>
                  s.delivered[0] != r.lastSent && s.delivered[|s.delivered| - 1] == s.relay.lastSent)
            && (forall i :: 0 < i < |s.delivered| ==> s.delivered[i] != s.delivered[i - 1])
    decreases r.Backlog()
  {
    if r.Pending() != NONE && ok(k) {
      var next := r.OnSent(r.Pending());
      SendLoopResult(next, ok, k + 1);
      var s, rest := SendLoop(r, ok, k), SendLoop(next, ok, k + 1);
      assert s.delivered == [r.Pending()] + rest.delivered;
    }
  }

  /**
   What a daemon whose last status is `back`, and which missed `lost`, has received since: nothing,
   `lost`, or `lost` and then `back`; and what is pending then.
   */
  predicate Replays(r: Relay, lost: Status, back: Status, since: seq<Status>) {
    && r.registered && r.status == back
    && if since == [] then r.lastSent == back && r.missed == lost
       else if since == [lost] then r.lastSent == lost
       else since == [lost, back] && r.lastSent == back && r.missed == NONE
  }

  /** Sending goes on with the replay where it stopped. */
  lemma ReplayGoesOn(r: Relay, lost: Status, back: Status, since: seq<Status>, ok: nat -> bool)
    requires lost != back && Replays(r, lost, back, since)
    ensures var s := SendLoop(r, ok, 0); Replays(s.relay, lost, back, since + s.delivered)
  {
    if since == [] {
      if ok(0) { BackIsNext(r.OnSent(lost), lost, back, ok, 1); }
    } else if since == [lost] {
      BackIsNext(r, lost, back, ok, 0);
    }
  }

  lemma BackIsNext(r: Relay, lost: Status, back: Status, ok: nat -> bool, k: nat)
    requires lost != back && r.registered && r.status == back && r.lastSent == lost
    ensures
      var s := SendLoop(r, ok, k);
      && s.relay.registered && s.relay.status == back
      && (if ok(k) then s.delivered == [back] && s.relay.lastSent == back && s.relay.missed == NONE
          else s.delivered == [] && s.relay.lastSent == lost)
  {
    assert SendLoop(r.OnSent(back), ok, k + 1) == Sending(r.OnSent(back), [], false);
  }

  /** The relay as the slot thread keeps it. */
  class StatusRelay {
    var status: Status
    var sequence: int
    var lastSent: int
    var missed: int
    var registered: bool

    constructor (status: Status, sequence: int)
      ensures View() == NewRelay(status, sequence)
    {
      this.status, this.sequence := status, sequence;
      lastSent, missed, registered := NONE, NONE, false;
    }

    ghost function View(): Relay
      reads this
    {
      Relay(status, sequence, lastSent, missed, registered)
    }

    method OnAudioStatus(newStatus: Status, newSequence: int) returns (send: int)
      modifies this
      ensures View() == old(View()).Accept(newStatus, newSequence)
      ensures send == if newSequence <= old(sequence) then NONE else View().Pending()
    {
      if newSequence <= sequence { return NONE; }
      status := newStatus;
      sequence := newSequence;
      send := Pending();
    }

    method OnRegistered() returns (send: int)
      modifies this
      ensures View() == old(View()).OnRegistered() && send == View().Pending()
    {
      registered := true;
      lastSent := NONE;
      missed := NONE;
      send := Pending();
    }

    method OnUnregistered()
      modifies this
      ensures View() == old(View()).OnUnregistered()
    {
      registered := false;
    }

    method OnSent(sent: Status)
      modifies this
      ensures View() == old(View()).OnSent(sent)
    {
      lastSent := sent;
      missed := NONE;
    }

    method OnSendFailed(failed: Status)
      modifies this
      ensures View() == old(View()).OnSendFailed(failed)
    {
      if failed != lastSent { missed := failed; }
    }

    method Pending() returns (send: int)
      ensures send == View().Pending()
    {
      if !registered { return NONE; }
      return if status != lastSent then status else missed;
    }

    /** The loop of SlotClient.send: sends until nothing is pending or a call fails. */
    method Send(ok: nat -> bool) returns (delivered: seq<Status>, failed: bool)
      modifies this
      ensures var s := SendLoop(old(View()), ok, 0);
              View() == s.relay && delivered == s.delivered && failed == s.failed
    {
      delivered := [];
      var k := 0;
      var next := Pending();
      while next != NONE
        invariant next == View().Pending() && |delivered| == k
        invariant var all, rest := SendLoop(old(View()), ok, 0), SendLoop(View(), ok, k);
                  && all.relay == rest.relay && all.failed == rest.failed
                  && all.delivered == delivered + rest.delivered
        decreases View().Backlog()
      {
        if !ok(k) {
          OnSendFailed(next);
          return delivered, true;
        }
        OnSent(next);
        delivered := delivered + [next];
        k := k + 1;
        next := Pending();
      }
      failed := false;
    }
  }
}
