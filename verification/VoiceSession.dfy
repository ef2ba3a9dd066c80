/**
 Voice effect sessions as values, and every run of calls on live handles
 (audio/effects/voice_processing.c).
 */
module VoiceSession {
  import opened Common

  const NUM_ID := 2
  const PCM_16_BIT := 0x1
  const CHANNEL_IN_MONO := 0x10
  const DEFAULT_RATE := 16000

  type EffectId = i: int | 0 <= i < NUM_ID

  datatype EffectState = Init | Created | Configured | Active

  type States = s: seq<EffectState> | |s| == NUM_ID witness [Init, Init]

  /** The return codes 0, -EINVAL, -ENOSYS and -ENODATA. */
  datatype Status = Ok | Invalid | NoSys | NoData

  datatype Port = Port(rate: int, channels: int, format: int)

  /** `rest` stands for the fields no check reads. */
  datatype Config = Config(input: Port, output: Port, rest: int)

  /** The three masks are the sets of their bits. */
  datatype Session = Session(
    config: Config,
    configured: bool,
    states: States,
    id: int,
    io: int,
    created: set<EffectId>,
    enabled: set<EffectId>,
    processed: set<EffectId>)

  const BLANK_PORT := Port(0, 0, 0)
  const DEFAULT_PORT := Port(DEFAULT_RATE, CHANNEL_IN_MONO, PCM_16_BIT)

  function NewSession(id: int, io: int): Session {
    Session(Config(BLANK_PORT, BLANK_PORT, 0), false, [Init, Init], id, io, {}, {}, {})
  }

  function SetFxEnabled(s: Session, id: EffectId, on: bool): Session {
    s.(enabled := if on then s.enabled + {id} else s.enabled - {id}, processed := {})
  }

  /** Whether an effect may go from one state to another. */
  predicate Allowed(from: EffectState, to: EffectState) {
    match to
    case Init => true
    case Created => from == Init
    case Configured => from != Init
    case Active => from == Configured || from == Active
  }

  function SetState(s: Session, id: EffectId, to: EffectState): (Session, Status) {
    var from := s.states[id];
    if !Allowed(from, to) then (s, NoSys)
    else
      var t := if (from == Active) != (to == Active) then SetFxEnabled(s, id, to == Active) else s;
      (t.(states := t.states[id := to]), Ok)
  }

  function CreateEffect(s: Session, id: EffectId): (Session, Status) {
    var t := if s.created == {} then
               s.(config := s.config.(input := DEFAULT_PORT, output := DEFAULT_PORT), enabled := {}, processed := {})
             else s;
    var (u, status) := SetState(t, id, Created);
    (if status == Ok then u.(created := u.created + {id}) else u, status)
  }

  function ReleaseEffect(s: Session, id: EffectId): Session {
    SetState(s, id, Init).0.(created := s.created - {id})
  }

  function SetConfig(s: Session, c: Config): (Session, Status) {
    if c.input.rate != c.output.rate || c.input.format != c.output.format || c.input.format != PCM_16_BIT
    then (s, Invalid)
    else if s.enabled != {} then
      (s, if s.config.input.rate != c.input.rate || s.config.input.channels != c.input.channels
             || s.config.output.channels != c.output.channels
          then NoSys else Ok)
    else (s.(config := c, configured := true), Ok)
  }

  datatype Command =
    | ConfigureCmd(validArgs: bool, config: Config)
    | EnableCmd(validArgs: bool)
    | DisableCmd(validArgs: bool)
    // The commands that only read or only check their arguments.
    | OtherCmd

  /** The session after a command and the status put into the reply, if any. */
  function RunCommand(s: Session, id: EffectId, cmd: Command): (Session, Option<Status>) {
    if cmd == OtherCmd || !cmd.validArgs then (s, None)
    else
      match cmd
      case ConfigureCmd(_, config) =>
        var (t, status) := SetConfig(s, config);
        if status == Ok && t.states[id] != Active then
          var (u, changed) := SetState(t, id, Configured);
          (u, Some(changed))
        else (t, Some(status))
      case EnableCmd(_) => var (t, status) := SetState(s, id, Active); (t, Some(status))
      case DisableCmd(_) => var (t, status) := SetState(s, id, Configured); (t, Some(status))
  }

  function Process(s: Session, id: EffectId): (Session, Status) {
    var t := s.(processed := s.processed + {id});
    if t.processed * t.enabled == t.enabled then (t.(processed := {}), Ok) else (t, NoData)
  }

  // ------------------------------------------------------------------------
  // The session list
  // ------------------------------------------------------------------------

  /** The index of the first session with that id, or the length of the list. */
  function IndexOf(list: seq<Session>, sessionId: int): (k: nat)
    ensures k <= |list|
    ensures k < |list| ==> list[k].id == sessionId
    ensures forall j :: 0 <= j < k ==> list[j].id != sessionId
  {
    if list == [] then 0
    else if list[0].id == sessionId then 0
    else
      var k := IndexOf(list[1..], sessionId);
      assert forall j :: 1 <= j < k + 1 ==> list[j] == list[1..][j - 1];
      k + 1
  }

  function Removed<T>(list: seq<T>, k: nat): (r: seq<T>)
    requires k < |list|
    ensures |r| == |list| - 1
    ensures forall j :: 0 <= j < k ==> r[j] == list[j]
    ensures forall j :: k <= j < |r| ==> r[j] == list[j + 1]
  {
    list[..k] + list[k + 1..]
  }

  /** The list to go on with and the index of the session that is to get effect `id`. */
  function GetSession(list: seq<Session>, id: EffectId, sessionId: int, io: int, memory: bool)
    : (r: Option<(seq<Session>, nat)>)
    ensures r.Some? ==> r.value.1 < |r.value.0|
  {
    var k := IndexOf(list, sessionId);
    if k < |list| then
      if id in list[k].created then None else Some((list, k))
    else if !memory then None
    else Some((list + [NewSession(sessionId, io)], k))
  }

  /** The list after a try to create effect `id` in the session at `k`. */
  function CreateAt(list: seq<Session>, k: nat, id: EffectId): (seq<Session>, Status)
    requires k < |list|
  {
    var (s, status) := CreateEffect(list[k], id);
    (if status != Ok && s.created == {} then Removed(list, k) else list[k := s], status)
  }

  /** `id` is None when the requested type is not one of the library's. */
  function LibCreate(list: seq<Session>, id: Option<EffectId>, sessionId: int, io: int, memory: bool)
    : (seq<Session>, Status)
  {
    if id.None? then (list, Invalid)
    else
      var got := GetSession(list, id.value, sessionId, io, memory);
      if got.None? then (list, Invalid) else CreateAt(got.value.0, got.value.1, id.value)
  }

  function LibRelease(list: seq<Session>, k: nat, id: EffectId): seq<Session>
    requires k < |list|
  {
    var s := ReleaseEffect(list[k], id);
    if s.created == {} then Removed(list, k) else list[k := s]
  }

  // ------------------------------------------------------------------------
  // Runs
  // ------------------------------------------------------------------------

  datatype Event =
    | Ran(id: EffectId, complete: bool)
    | Switched(id: EffectId)

  datatype World = World(list: seq<Session>, logs: seq<seq<Event>>)

  datatype Step =
    | Create(kind: Option<EffectId>, sessionId: int, io: int, memory: bool)
    | Release(k: nat, id: EffectId)
    | Command(k: nat, id: EffectId, cmd: Command)
    | Run(k: nat, id: EffectId)

  /** A handle the library returned and the caller has not released. */
  predicate Live(w: World, k: nat, id: EffectId) {
    k < |w.list| && k < |w.logs| && id in w.list[k].created
  }

  function Switches(s: Session, t: Session, id: EffectId): seq<Event> {
    if (s.states[id] == Active) != (t.states[id] == Active) then [Switched(id)] else []
  }

  function Next(w: World, step: Step): World {
    match step
    case Create(kind, sessionId, io, memory) =>
      var (list, _) := LibCreate(w.list, kind, sessionId, io, memory);
      World(list, if |list| > |w.list| then w.logs + [[]] else w.logs)
    case Release(k, id) =>
      if !Live(w, k, id) then w
      else
        var list := LibRelease(w.list, k, id);
        if |list| < |w.list| then World(list, Removed(w.logs, k))
        else World(list, w.logs[k := w.logs[k] + Switches(w.list[k], ReleaseEffect(w.list[k], id), id)])
    case Command(k, id, cmd) =>
      if !Live(w, k, id) then w
      else
        var (s, _) := RunCommand(w.list[k], id, cmd);
        World(w.list[k := s], w.logs[k := w.logs[k] + Switches(w.list[k], s, id)])
    case Run(k, id) =>
      if !Live(w, k, id) then w
      else
        var (s, status) := Process(w.list[k], id);
        World(w.list[k := s], w.logs[k := w.logs[k] + [Ran(id, status == Ok)]])
  }

  function Exec(steps: seq<Step>): World {
    if steps == [] then World([], []) else Next(Exec(steps[..|steps| - 1]), steps[|steps| - 1])
  }

  predicate IsReset(e: Event) {
    e.Switched? || e.complete
  }

  /** Effect `id` ran, and since then no effect was switched and no frame was completed. */
  ghost predicate RanSinceReset(log: seq<Event>, id: EffectId) {
    exists j :: 0 <= j < |log| && log[j] == Ran(id, false) && forall i :: j < i < |log| ==> !IsReset(log[i])
  }

  predicate MasksAgree(s: Session) {
    forall i: EffectId :: (i in s.created <==> s.states[i] != Init) && (i in s.enabled <==> s.states[i] == Active)
  }

  ghost predicate SessionOk(s: Session, log: seq<Event>) {
    && MasksAgree(s)
    && s.created != {}
    && forall i: EffectId :: i in s.processed <==> RanSinceReset(log, i)
  }

  /** Every listed session has an effect and its masks are its effects' states, and no id is listed twice. */
  predicate ListOk(list: seq<Session>) {
    && (forall k :: 0 <= k < |list| ==> MasksAgree(list[k]) && list[k].created != {})
    && (forall i, j :: 0 <= i < j < |list| ==> list[i].id != list[j].id)
  }

  lemma ReplacedListOk(list: seq<Session>, k: nat, s: Session)
    requires ListOk(list) && k < |list| && MasksAgree(s) && s.created != {} && s.id == list[k].id
    ensures ListOk(list[k := s])
  {
  }

  lemma RemovedListOk(list: seq<Session>, k: nat)
    requires ListOk(list) && k < |list|
    ensures ListOk(Removed(list, k))
  {
  }

  lemma AppendedListOk(list: seq<Session>, s: Session)
    requires ListOk(list) && MasksAgree(s) && s.created != {} && forall j :: 0 <= j < |list| ==> list[j].id != s.id
    ensures ListOk(list + [s])
  {
  }

  lemma CreatedMasks(s: Session, id: EffectId)
    requires MasksAgree(s) && id !in s.created
    ensures var (t, status) := CreateEffect(s, id); status == Ok && MasksAgree(t) && t.created != {} && t.id == s.id
  {
    SetStateOk(s, id, Created);
  }

  lemma ReleasedMasks(s: Session, id: EffectId)
    requires MasksAgree(s)
    ensures var t := ReleaseEffect(s, id); MasksAgree(t) && t.id == s.id
  {
    SetStateOk(s, id, Init);
  }

  lemma CreateKeepsList(list: seq<Session>, kind: Option<EffectId>, sessionId: int, io: int, memory: bool)
    requires ListOk(list)
    ensures ListOk(LibCreate(list, kind, sessionId, io, memory).0)
  {
    var k := IndexOf(list, sessionId);
    if kind.Some? {
      LibCreateIs(list, k, kind.value, sessionId, io, memory);
      if k == |list| {
        var s := NewSession(sessionId, io);
        CreatedMasks(s, kind.value);
        AppendedListOk(list, CreateEffect(s, kind.value).0);
      } else if kind.value !in list[k].created {
        CreatedMasks(list[k], kind.value);
        ReplacedListOk(list, k, CreateEffect(list[k], kind.value).0);
      }
    }
  }

  lemma ReleaseKeepsList(list: seq<Session>, k: nat, id: EffectId)
    requires ListOk(list) && k < |list|
    ensures ListOk(LibRelease(list, k, id))
  {
    var s := ReleaseEffect(list[k], id);
    ReleasedMasks(list[k], id);
    if s.created == {} { RemovedListOk(list, k); } else { ReplacedListOk(list, k, s); }
  }

  lemma CommandKeepsMasks(s: Session, id: EffectId, cmd: Command)
    requires MasksAgree(s) && id in s.created
    ensures var t := RunCommand(s, id, cmd).0; MasksAgree(t) && t.created == s.created
  {
    if cmd != OtherCmd && cmd.validArgs {
      match cmd
      case ConfigureCmd(_, config) => SetStateOk(SetConfig(s, config).0, id, Configured);
      case EnableCmd(_) => SetStateOk(s, id, Active);
      case DisableCmd(_) => SetStateOk(s, id, Configured);
    }
  }

  ghost predicate WorldOk(w: World) {
    && |w.logs| == |w.list|
    && (forall k :: 0 <= k < |w.list| ==> SessionOk(w.list[k], w.logs[k]))
    && (forall i, j :: 0 <= i < j < |w.list| ==> w.list[i].id != w.list[j].id)
  }

  lemma RanSinceAppend(log: seq<Event>, e: Event, id: EffectId)
    ensures RanSinceReset(log + [e], id) <==> !IsReset(e) && (e.id == id || RanSinceReset(log, id))
  {
    var longer := log + [e];
    assert longer[|log|] == e;
    if !IsReset(e) && RanSinceReset(log, id) {
      var j :| 0 <= j < |log| && log[j] == Ran(id, false) && forall i :: j < i < |log| ==> !IsReset(log[i]);
      assert longer[j] == Ran(id, false);
    }
    if RanSinceReset(longer, id) {
      var j :| 0 <= j < |longer| && longer[j] == Ran(id, false) && forall i :: j < i < |longer| ==> !IsReset(longer[i]);
      if j < |log| {
        assert log[j] == Ran(id, false);
        assert forall i :: j < i < |log| ==> log[i] == longer[i];
      }
    }
  }

  lemma ProcessedAfter(s: Session, log: seq<Event>, t: Session, events: seq<Event>)
    requires forall i: EffectId :: i in s.processed <==> RanSinceReset(log, i)
    requires events == [] ==> t.processed == s.processed
    requires events != [] ==> |events| == 1
    requires events != [] ==> t.processed == if IsReset(events[0]) then {} else s.processed + {events[0].id}
    ensures forall i: EffectId :: i in t.processed <==> RanSinceReset(log + events, i)
  {
    if events == [] { assert log + events == log; }
    else {
      assert events == [events[0]];
      forall i: EffectId ensures i in t.processed <==> RanSinceReset(log + events, i) {
        RanSinceAppend(log, events[0], i);
      }
    }
  }

  lemma SetStateOk(s: Session, id: EffectId, to: EffectState)
    requires forall i: EffectId :: i in s.enabled <==> s.states[i] == Active
    ensures
      var (t, status) := SetState(s, id, to);
      && (forall i: EffectId :: i in t.enabled <==> t.states[i] == Active)
      && (forall i: EffectId :: i != id ==> t.states[i] == s.states[i])
      && (status == Ok ==> t.states[id] == to)
      && t.created == s.created
      && t.processed == if Switches(s, t, id) != [] then {} else s.processed
  {
  }

  lemma CommandOk(s: Session, log: seq<Event>, id: EffectId, cmd: Command)
    requires SessionOk(s, log) && id in s.created
    ensures var t := RunCommand(s, id, cmd).0; SessionOk(t, log + Switches(s, t, id))
  {
    var t := RunCommand(s, id, cmd).0;
    if cmd != OtherCmd && cmd.validArgs {
      match cmd
      case ConfigureCmd(_, config) => SetStateOk(SetConfig(s, config).0, id, Configured);
      case EnableCmd(_) => SetStateOk(s, id, Active);
      case DisableCmd(_) => SetStateOk(s, id, Configured);
    }
    ProcessedAfter(s, log, t, Switches(s, t, id));
  }

  lemma ReleaseOk(s: Session, log: seq<Event>, id: EffectId)
    requires SessionOk(s, log) && ReleaseEffect(s, id).created != {}
    ensures var t := ReleaseEffect(s, id); SessionOk(t, log + Switches(s, t, id))
  {
    var t := ReleaseEffect(s, id);
    SetStateOk(s, id, Init);
    ProcessedAfter(s, log, t, Switches(s, t, id));
  }

  lemma ProcessOk(s: Session, log: seq<Event>, id: EffectId)
    requires SessionOk(s, log) && id in s.created
    ensures var (t, status) := Process(s, id); SessionOk(t, log + [Ran(id, status == Ok)])
  {
    var (t, status) := Process(s, id);
    ProcessedAfter(s, log, t, [Ran(id, status == Ok)]);
  }

  lemma CreateInOk(s: Session, log: seq<Event>, id: EffectId)
    requires SessionOk(s, log) && id !in s.created
    ensures var (t, status) := CreateEffect(s, id); status == Ok && SessionOk(t, log)
  {
    SetStateOk(s, id, Created);
  }

  lemma CreateNewOk(sessionId: int, io: int, id: EffectId)
    ensures var (t, status) := CreateEffect(NewSession(sessionId, io), id); status == Ok && SessionOk(t, [])
  {
    assert forall i: EffectId :: !RanSinceReset([], i);
  }

  /** What a create does to a list whose masks agree. */
  lemma LibCreateIs(list: seq<Session>, k: nat, id: EffectId, sessionId: int, io: int, memory: bool)
    requires k == IndexOf(list, sessionId) && (k < |list| ==> MasksAgree(list[k]))
    ensures LibCreate(list, Some(id), sessionId, io, memory) ==
      if k < |list| then if id in list[k].created then (list, Invalid) else (list[k := CreateEffect(list[k], id).0], Ok)
      else if memory then (list + [CreateEffect(NewSession(sessionId, io), id).0], Ok)
      else (list, Invalid)
  {
    if k < |list| {
      if id !in list[k].created { CreatedMasks(list[k], id); }
    } else {
      var s := NewSession(sessionId, io);
      CreatedMasks(s, id);
      assert (list + [s])[k := CreateEffect(s, id).0] == list + [CreateEffect(s, id).0];
    }
  }

  lemma AppendedWorldOk(w: World, s: Session)
    requires WorldOk(w) && SessionOk(s, []) && forall j :: 0 <= j < |w.list| ==> w.list[j].id != s.id
    ensures WorldOk(World(w.list + [s], w.logs + [[]]))
  {
  }

  lemma ReplacedWorldOk(w: World, k: nat, s: Session)
    requires WorldOk(w) && k < |w.list| && SessionOk(s, w.logs[k]) && s.id == w.list[k].id
    ensures WorldOk(World(w.list[k := s], w.logs))
  {
  }

  lemma CreateStepOk(w: World, kind: Option<EffectId>, sessionId: int, io: int, memory: bool)
    requires WorldOk(w)
    ensures WorldOk(Next(w, Create(kind, sessionId, io, memory)))
  {
    var k := IndexOf(w.list, sessionId);
    if kind.Some? {
      LibCreateIs(w.list, k, kind.value, sessionId, io, memory);
      if k == |w.list| {
        CreateNewOk(sessionId, io, kind.value);
        AppendedWorldOk(w, CreateEffect(NewSession(sessionId, io), kind.value).0);
      } else if kind.value !in w.list[k].created {
        CreateInOk(w.list[k], w.logs[k], kind.value);
        ReplacedWorldOk(w, k, CreateEffect(w.list[k], kind.value).0);
      }
    }
  }

  lemma ReleaseStepOk(w: World, k: nat, id: EffectId)
    requires WorldOk(w) && Live(w, k, id)
    ensures WorldOk(Next(w, Release(k, id)))
  {
    var t := ReleaseEffect(w.list[k], id);
    if t.created != {} { ReleaseOk(w.list[k], w.logs[k], id); }
  }

  lemma CommandStepOk(w: World, k: nat, id: EffectId, cmd: Command)
    requires WorldOk(w) && Live(w, k, id)
    ensures WorldOk(Next(w, Command(k, id, cmd)))
  {
    CommandOk(w.list[k], w.logs[k], id, cmd);
  }

  lemma RunStepOk(w: World, k: nat, id: EffectId)
    requires WorldOk(w) && Live(w, k, id)
    ensures WorldOk(Next(w, Run(k, id)))
  {
    ProcessOk(w.list[k], w.logs[k], id);
  }

  lemma {:induction false} RunOk(steps: seq<Step>)
    ensures WorldOk(Exec(steps))
  {
    if steps != [] {
      var w, step := Exec(steps[..|steps| - 1]), steps[|steps| - 1];
      RunOk(steps[..|steps| - 1]);
      match step
      case Create(kind, sessionId, io, memory) => CreateStepOk(w, kind, sessionId, io, memory);
      case Release(k, id) => if Live(w, k, id) { ReleaseStepOk(w, k, id); }
      case Command(k, id, cmd) => if Live(w, k, id) { CommandStepOk(w, k, id, cmd); }
      case Run(k, id) => if Live(w, k, id) { RunStepOk(w, k, id); }
    }
  }

  /** After any run the masks are the effects' states, and no listed session is empty or listed twice. */
  lemma MasksAndListAgree(steps: seq<Step>)
    ensures ListOk(Exec(steps).list)
  {
    RunOk(steps);
  }

  /** A create fails only for an unknown type, an effect the session already has, or want of memory. */
  lemma CreateSucceedsUnlessTaken(steps: seq<Step>, kind: Option<EffectId>, sessionId: int, io: int, memory: bool)
    ensures
      var list := Exec(steps).list;
      var (after, status) := LibCreate(list, kind, sessionId, io, memory);
      && (status == Ok <==>
            && kind.Some?
            && (memory || exists k :: 0 <= k < |list| && list[k].id == sessionId)
            && forall k :: 0 <= k < |list| && list[k].id == sessionId ==> list[k].states[kind.value] == Init)
      && (status == Ok ==> exists k :: 0 <= k < |after| && after[k].id == sessionId && after[k].states[kind.value] == Created)
      && (status != Ok ==> status == Invalid && after == list)
  {
    RunOk(steps);
    var w := Exec(steps);
    var k := IndexOf(w.list, sessionId);
    if kind.Some? {
      LibCreateIs(w.list, k, kind.value, sessionId, io, memory);
      if k < |w.list| && kind.value !in w.list[k].created { SetStateOk(w.list[k], kind.value, Created); }
      var (after, status) := LibCreate(w.list, kind, sessionId, io, memory);
      if status == Ok { assert after[k].id == sessionId && after[k].states[kind.value] == Created; }
    }
  }

  lemma SessionKeepsConfig(s: Session, id: EffectId, cmd: Command)
    requires s.enabled != {} && s.created != {}
    ensures RunCommand(s, id, cmd).0.config == s.config && RunCommand(s, id, cmd).0.id == s.id
    ensures Process(s, id).0.config == s.config && Process(s, id).0.id == s.id
    ensures ReleaseEffect(s, id).config == s.config && ReleaseEffect(s, id).id == s.id
    ensures CreateEffect(s, id).0.config == s.config && CreateEffect(s, id).0.id == s.id
  {
  }

  lemma SessionKeepsId(s: Session, id: EffectId, cmd: Command)
    ensures RunCommand(s, id, cmd).0.id == s.id && Process(s, id).0.id == s.id
    ensures ReleaseEffect(s, id).id == s.id && CreateEffect(s, id).0.id == s.id
  {
  }

  /** What became of the session at `i`: it is at `j` now, changed by at most one call. */
  ghost predicate Kept(before: seq<Session>, i: nat, after: seq<Session>, j: nat)
  {
    && i < |before| && j < |after|
    && (before[i].id == after[j].id && before[i].enabled != {} ==> after[j].config == before[i].config)
  }

  lemma ReplacedKeeps(list: seq<Session>, k: nat, s: Session, i: nat, j: nat)
    requires k < |list| && i < |list| && j < |list|
    requires forall i, j :: 0 <= i < j < |list| ==> list[i].id != list[j].id
    requires s.id == list[k].id && (list[k].enabled != {} ==> s.config == list[k].config)
    ensures Kept(list, i, list[k := s], j)
  {
  }

  lemma RemovedKeeps(list: seq<Session>, k: nat, i: nat, j: nat)
    requires k < |list| && i < |list| && j < |list| - 1
    requires forall i, j :: 0 <= i < j < |list| ==> list[i].id != list[j].id
    ensures Kept(list, i, Removed(list, k), j)
  {
    var at := if j < k then j else j + 1;
    assert Removed(list, k)[j] == list[at];
  }

  lemma CreateKeeps(w: World, kind: Option<EffectId>, sessionId: int, io: int, memory: bool, i: nat, j: nat)
    requires WorldOk(w) && i < |w.list| && j < |LibCreate(w.list, kind, sessionId, io, memory).0|
    ensures Kept(w.list, i, LibCreate(w.list, kind, sessionId, io, memory).0, j)
  {
    var k := IndexOf(w.list, sessionId);
    if kind.Some? {
      if k == |w.list| { CreateNewOk(sessionId, io, kind.value); }
      else if kind.value !in w.list[k].created {
        CreateInOk(w.list[k], w.logs[k], kind.value);
        SessionKeepsId(w.list[k], kind.value, OtherCmd);
        if w.list[k].enabled != {} { SessionKeepsConfig(w.list[k], kind.value, OtherCmd); }
        ReplacedKeeps(w.list, k, CreateEffect(w.list[k], kind.value).0, i, j);
      }
    }
  }

  lemma StepKeeps(w: World, step: Step, i: nat, j: nat)
    requires WorldOk(w) && i < |w.list| && j < |Next(w, step).list|
    ensures Kept(w.list, i, Next(w, step).list, j)
  {
    if step.Create? { CreateKeeps(w, step.kind, step.sessionId, step.io, step.memory, i, j); }
    else if Live(w, step.k, step.id) {
      var s, cmd := w.list[step.k], if step.Command? then step.cmd else OtherCmd;
      SessionKeepsId(s, step.id, cmd);
      if s.enabled != {} { SessionKeepsConfig(s, step.id, cmd); }
      if step.Release? && ReleaseEffect(s, step.id).created == {} { RemovedKeeps(w.list, step.k, i, j); }
      else {
        var t := if step.Release? then ReleaseEffect(s, step.id)
                 else if step.Run? then Process(s, step.id).0 else RunCommand(s, step.id, cmd).0;
        ReplacedKeeps(w.list, step.k, t, i, j);
      }
    }
  }

  /** No call changes the configuration of a session that has an active effect before it. */
  lemma ConfigFixedWhileActive(steps: seq<Step>, step: Step, i: nat, j: nat, id: EffectId)
    requires
      var list, after := Exec(steps).list, Exec(steps + [step]).list;
      i < |list| && j < |after| && list[i].id == after[j].id && list[i].states[id] == Active
    ensures Exec(steps + [step]).list[j].config == Exec(steps).list[i].config
  {
    RunOk(steps);
    assert (steps + [step])[..|steps|] == steps;
    assert id in Exec(steps).list[i].enabled;
    StepKeeps(Exec(steps), step, i, j);
  }

  /** A call of process completes a frame iff every active effect ran since the last reset or runs now. */
  lemma ProcessCompletesFrame(steps: seq<Step>, k: nat, id: EffectId)
    requires Live(Exec(steps), k, id)
    ensures
      var w := Exec(steps);
      var status := Process(w.list[k], id).1;
      && (status == Ok <==> forall i: EffectId :: w.list[k].states[i] == Active ==> i == id || RanSinceReset(w.logs[k], i))
      && (status != Ok ==> status == NoData)
  {
    RunOk(steps);
    var s := Exec(steps).list[k];
    assert s.enabled <= s.processed + {id} <==> (s.processed + {id}) * s.enabled == s.enabled;
  }
}
