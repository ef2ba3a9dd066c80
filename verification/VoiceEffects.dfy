/**
 The effect library's objects: sessions changed in place and the list that holds them
 (audio/effects/voice_processing.c).
 */
module VoiceEffects {
  import opened Common
  import opened VoiceSession

  class SessionContext {
    var config: Config
    var configured: bool
    var states: States
    const id: int
    const io: int
    var created: set<EffectId>
    var enabled: set<EffectId>
    var processed: set<EffectId>

    function View(): Session
      reads this
    {
      Session(config, configured, states, id, io, created, enabled, processed)
    }

    /** The masks of created and enabled effects are the effects' states. */
    predicate Valid()
      reads this
    {
      MasksAgree(View())
    }

    constructor (id: int, io: int)
      ensures Valid() && View() == NewSession(id, io)
    {
      config := Config(BLANK_PORT, BLANK_PORT, 0);
      configured, states, this.id, this.io := false, [Init, Init], id, io;
      created, enabled, processed := {}, {}, {};
    }

    method SwitchEffect(effect: EffectId, on: bool)
      modifies this
      ensures View() == SetFxEnabled(old(View()), effect, on)
    {
      if on { enabled := enabled + {effect}; } else { enabled := enabled - {effect}; }
      processed := {};
    }

    method MoveTo(effect: EffectId, to: EffectState) returns (status: Status)
      modifies this
      ensures (View(), status) == SetState(old(View()), effect, to)
    {
      status := Ok;
      match to {
        case Init =>
          match states[effect] {
            case Active => SwitchEffect(effect, false);
            case _ =>
          }
        case Created =>
          match states[effect] {
            case Init =>
            case _ => status := NoSys;
          }
        case Configured =>
          match states[effect] {
            case Init => status := NoSys;
            case Active => SwitchEffect(effect, false);
            case _ =>
          }
        case Active =>
          match states[effect] {
            case Active =>
            case Configured => SwitchEffect(effect, true);
            case _ => status := NoSys;
          }
      }
      if status == Ok { states := states[effect := to]; }
    }

    method AddEffect(effect: EffectId) returns (status: Status)
      modifies this
      ensures (View(), status) == CreateEffect(old(View()), effect)
    {
      if created == {} {
        config := config.(input := DEFAULT_PORT, output := DEFAULT_PORT);
        enabled, processed := {}, {};
      }
      status := MoveTo(effect, Created);
      if status == Ok { created := created + {effect}; }
    }

    /** The list drops the session when `last`. */
    method DropEffect(effect: EffectId) returns (last: bool)
      modifies this
      ensures View() == ReleaseEffect(old(View()), effect) && last == (View().created == {})
    {
      var _ := MoveTo(effect, Init);
      created := created - {effect};
      last := created == {};
    }

    method Configure(c: Config) returns (status: Status)
      modifies this
      ensures (View(), status) == SetConfig(old(View()), c)
    {
      if c.input.rate != c.output.rate || c.input.format != c.output.format || c.input.format != PCM_16_BIT {
        return Invalid;
      }
      if enabled != {} {
        if config.input.rate != c.input.rate || config.input.channels != c.input.channels
           || config.output.channels != c.output.channels {
          return NoSys;
        }
        return Ok;
      }
      config, configured := c, true;
      return Ok;
    }

    method HandleCommand(effect: EffectId, cmd: Command) returns (reply: Option<Status>)
      modifies this
      ensures (View(), reply) == RunCommand(old(View()), effect, cmd)
      ensures old(Valid()) && effect in old(created) ==> Valid() && created == old(created)
    {
      if Valid() && effect in created { CommandKeepsMasks(View(), effect, cmd); }
      if cmd == OtherCmd || !cmd.validArgs { return None; }
      var status;
      if cmd.ConfigureCmd? {
        status := Configure(cmd.config);
        if status == Ok && states[effect] != Active { status := MoveTo(effect, Configured); }
      } else if cmd.EnableCmd? {
        status := MoveTo(effect, Active);
      } else {
        status := MoveTo(effect, Configured);
      }
      return Some(status);
    }

    method ProcessBuffer(effect: EffectId) returns (status: Status)
      modifies this
      ensures (View(), status) == Process(old(View()), effect)
      ensures old(Valid()) ==> Valid() && created == old(created)
    {
      processed := processed + {effect};
      if processed * enabled == enabled {
        processed := {};
        return Ok;
      }
      return NoData;
    }
  }

  class EffectLibrary {
    var sessions: seq<SessionContext>

    /** No session object is listed twice. */
    ghost predicate Distinct()
      reads this
    {
      NoRepeats(sessions)
    }

    ghost predicate Valid()
      reads this, sessions
    {
      Distinct() && ListOk(Views())
    }

    ghost function Views(): (views: seq<Session>)
      reads this, sessions
      ensures |views| == |sessions|
    {
      seq(|sessions|, i requires 0 <= i < |sessions| reads this, sessions => sessions[i].View())
    }

    constructor ()
      ensures Valid() && Views() == []
    {
      sessions := [];
    }

    /** The listed session with that id, or the length of the list. */
    method Lookup(sessionId: int) returns (k: nat)
      ensures k == IndexOf(Views(), sessionId)
    {
      k := 0;
      while k < |sessions| && sessions[k].id != sessionId
        invariant 0 <= k <= |sessions|
        invariant forall j :: 0 <= j < k ==> Views()[j].id != sessionId
      {
        k := k + 1;
      }
      assert k < |sessions| ==> Views()[k].id == sessionId;
    }

    method FindOrAdd(effect: EffectId, sessionId: int, io: int, memory: bool) returns (k: Option<nat>)
      requires Distinct()
      modifies this
      ensures Distinct()
      ensures forall s :: s in sessions ==> s in old(sessions) || fresh(s)
      ensures var got := GetSession(old(Views()), effect, sessionId, io, memory);
              if k.None? then got.None? && Views() == old(Views())
              else got == Some((Views(), k.value)) && sessions[k.value].id == sessionId
    {
      var at := Lookup(sessionId);
      if at < |sessions| {
        if effect in sessions[at].created { return None; }
        return Some(at);
      }
      if !memory { return None; }
      var s := new SessionContext(sessionId, io);
      sessions := sessions + [s];
      assert Views() == old(Views()) + [NewSession(sessionId, io)];
      return Some(at);
    }

    method AddEffectAt(k: nat, effect: EffectId) returns (status: Status)
      requires Distinct() && k < |sessions|
      modifies this, sessions[k]
      ensures Distinct() && (Views(), status) == CreateAt(old(Views()), k, effect)
      ensures status == Ok ==> sessions == old(sessions)
      ensures forall s :: s in sessions ==> s in old(sessions)
    {
      var session := sessions[k];
      status := session.AddEffect(effect);
      assert Views() == old(Views())[k := session.View()];
      if status != Ok && session.created == {} {
        sessions := Removed(sessions, k);
        assert Views() == Removed(old(Views()), k);
      }
    }

    method Create(kind: Option<EffectId>, sessionId: int, io: int, memory: bool)
      returns (status: Status, session: SessionContext?)
      requires Valid()
      modifies this, sessions
      ensures Valid() && (Views(), status) == LibCreate(old(Views()), kind, sessionId, io, memory)
      ensures status == Ok ==> session in sessions && session.id == sessionId
      ensures forall s :: s in sessions ==> s in old(sessions) || fresh(s)
    {
      CreateKeepsList(Views(), kind, sessionId, io, memory);
      session := null;
      if kind.None? { return Invalid, null; }
      var k := FindOrAdd(kind.value, sessionId, io, memory);
      if k.None? { return Invalid, null; }
      session := sessions[k.value];
      assert session in sessions;
      status := AddEffectAt(k.value, kind.value);
    }

    method DropEffectAt(k: nat, effect: EffectId)
      requires Distinct() && k < |sessions|
      modifies this, sessions[k]
      ensures Distinct() && Views() == LibRelease(old(Views()), k, effect)
    {
      var last := sessions[k].DropEffect(effect);
      assert Views() == old(Views())[k := ReleaseEffect(old(Views())[k], effect)];
      if last {
        sessions := Removed(sessions, k);
        assert Views() == Removed(old(Views()), k);
      }
    }

    method Release(session: SessionContext, effect: EffectId) returns (status: Status)
      requires Valid()
      modifies this, sessions
      ensures Valid()
      ensures session !in old(sessions) ==> status == Invalid && Views() == old(Views()) && sessions == old(sessions)
      ensures session in old(sessions) ==>
        exists k: nat :: k < |old(sessions)| && old(sessions)[k] == session
          && status == Ok && Views() == LibRelease(old(Views()), k, effect)
    {
      var k := 0;
      while k < |sessions| && sessions[k] != session
        invariant 0 <= k <= |sessions| && session !in sessions[..k]
      {
        k := k + 1;
      }
      if k == |sessions| { return Invalid; }
      ReleaseKeepsList(Views(), k, effect);
      DropEffectAt(k, effect);
      return Ok;
    }
  }
}
