/**
 The saved clock offset and its use at boot (timekeep/Record.h, timekeep/Record.cpp).
 */
module TimeKeep {
  import opened Common
  import opened Decimal
  import opened Text

  const MAX_RTC_SEC := 0xffff_ffff
  const MIN_WALL_MS := 1767225600000
  const MAX_WALL_MS := 4102444800000
  const SAVE_THRESHOLD_MS := 1000
  const REFRESH_MS := 60 * 60 * 1000
  const UNSET_CLOCK_MARGIN_MS := 60 * 1000
  const READ_BYTES := 64

  datatype Record = Record(offsetMs: int, rtcSec: int)
  {
    function WallMs(): int {
      rtcSec * 1000 + offsetMs
    }
  }

  function Abs(x: int): int {
    if x < 0 then -x else x
  }

  predicate Valid(r: Record) {
    && 0 <= r.rtcSec <= MAX_RTC_SEC
    && -MAX_RTC_SEC * 1000 <= r.offsetMs < MAX_WALL_MS
    && MIN_WALL_MS <= r.WallMs() < MAX_WALL_MS
  }

  function IntToString(n: int): string {
    if n < 0 then "-" + NatToString(-n) else NatToString(n)
  }

  function FormatRecord(r: Record): string {
    "1" + " " + IntToString(r.offsetMs) + " " + IntToString(r.rtcSec) + "\n"
  }

  /** The platform's ParseInt, of which only this is used: it reads what std::to_string wrote. */
  ghost predicate Inverts(parse: string -> Option<int>) {
    forall n: int :: -0x8000_0000_0000_0000 <= n < 0x8000_0000_0000_0000 ==> parse(IntToString(n)) == Some(n)
  }

  function ParseRecord(text: string, parse: string -> Option<int>): Option<Record> {
    if text == [] || text[|text| - 1] != '\n' then None
    else
      var fields := Fields(text[..|text| - 1], ' ');
      if |fields| != 3 || parse(fields[0]) != Some(1) || parse(fields[1]).None? || parse(fields[2]).None?
      then None
      else
        var r := Record(parse(fields[1]).value, parse(fields[2]).value);
        if Valid(r) then Some(r) else None
  }

  /** A record file is read with one 64-byte read, and one that fills it is refused. */
  function Load(text: string, parse: string -> Option<int>): Option<Record> {
    if |text| >= READ_BYTES then None else ParseRecord(text, parse)
  }

  function RestoreTargetMs(saved: Record, rtcSec: int, nowMs: int): Option<int> {
    if Abs(nowMs - rtcSec * 1000) >= UNSET_CLOCK_MARGIN_MS then None
    else if nowMs >= saved.WallMs() then None
    else if rtcSec < saved.rtcSec then Some(saved.WallMs())
    else
      var targetMs := rtcSec * 1000 + saved.offsetMs;
      if targetMs >= MAX_WALL_MS then None else Some(targetMs)
  }

  function NeedsSave(saved: Option<Record>, current: Record): bool {
    if !Valid(current) || Abs(current.offsetMs) < UNSET_CLOCK_MARGIN_MS then false
    else if saved.None? || current.rtcSec < saved.value.rtcSec then true
    else Abs(current.offsetMs - saved.value.offsetMs) >= SAVE_THRESHOLD_MS
         || current.WallMs() - saved.value.WallMs() >= REFRESH_MS
  }

  lemma NumberText(n: int, k: nat)
    requires k >= 1 && -(Pow10(k) as int) < n < Pow10(k)
    ensures var s := IntToString(n); 0 < |s| <= k + 1 && ' ' !in s
  {
    var m := Abs(n);
    WrittenIsRead(m);
    WrittenLength(m, k);
    assert ' ' !in NatToString(m);
  }

  lemma Pow10Of13()
    ensures Pow10(13) == 10_000_000_000_000
  {
    assert Pow10(3) == 1000;
    assert Pow10(6) == 1_000_000;
    assert Pow10(9) == 1_000_000_000;
    assert Pow10(12) == 1_000_000_000_000;
  }

  lemma ThreeFields(a: string, b: string)
    requires ' ' !in a && ' ' !in b
    ensures Fields("1" + " " + a + " " + b, ' ') == ["1", a, b]
  {
    var body, parts := "1" + " " + a + " " + b, ["1", a, b];
    assert parts[..2] == ["1", a] && ["1", a][..1] == ["1"];
    assert Join(["1", a], ' ') == "1" + [' '] + a;
    assert Join(parts, ' ') == body;
    FieldsAreTheSplit(body, ' ');
    SplitIsUnique(body, ' ', Fields(body, ' '), parts);
  }

  /** A saved record fits the read at boot and loads back equal. */
  lemma SavedLoadsBack(r: Record, parse: string -> Option<int>)
    requires Valid(r) && Inverts(parse)
    ensures |FormatRecord(r)| < READ_BYTES && Load(FormatRecord(r), parse) == Some(r)
  {
    var a, b := IntToString(r.offsetMs), IntToString(r.rtcSec);
    Pow10Of13();
    NumberText(r.offsetMs, 13);
    NumberText(r.rtcSec, 13);
    ThreeFields(a, b);
    var text := FormatRecord(r);
    assert text[..|text| - 1] == "1" + " " + a + " " + b;
    assert IntToString(1) == "1";
    assert parse("1") == Some(1) && parse(a) == Some(r.offsetMs) && parse(b) == Some(r.rtcSec);
  }

  // ------------------------------------------------------------------------
  // The daemon over reboots, clock changes and power losses (timekeep/main.cpp)
  // ------------------------------------------------------------------------

  /** Whether a save reached the disk, and whether the daemon was told so. */
  datatype SaveOutcome = Saved | NotWritten | RenamedButNotSynced

  /**
   The record file, what a power loss may leave of it (the synced text, then every later rename
   not yet synced), the daemon's copy, and the last valid measurement of a clock that had been set.
   */
  datatype World = World(disk: string, durable: seq<string>, saved: Option<Record>, last: Option<Record>)

  datatype Step =
    | Measure(rtcSec: int, nowMs: int, outcome: SaveOutcome)
    // A power loss or a restart, after which the disk holds durable[pick].
    | Reboot(pick: nat)

  predicate IsSet(r: Record) {
    Valid(r) && Abs(r.offsetMs) >= UNSET_CLOCK_MARGIN_MS
  }

  function Boot(disk: string, parse: string -> Option<int>): World {
    World(disk, [disk], Load(disk, parse), None)
  }

  function Measured(w: World, current: Record, outcome: SaveOutcome): World {
    var needed := NeedsSave(w.saved, current);
    var v := if IsSet(current) then w.(last := Some(current)) else w;
    if !needed || outcome == NotWritten then v
    else
      var text := FormatRecord(current);
      if outcome == Saved then v.(disk := text, durable := [text], saved := Some(current))
      else v.(disk := text, durable := w.durable + [text])
  }

  function Next(w: World, step: Step, parse: string -> Option<int>): World {
    match step
    case Measure(rtcSec, nowMs, outcome) => Measured(w, Record(nowMs - rtcSec * 1000, rtcSec), outcome)
    case Reboot(pick) =>
      if pick >= |w.durable| then w
      else
        var disk := w.durable[pick];
        World(disk, [disk], Load(disk, parse), w.last)
  }

  function Exec(w: World, steps: seq<Step>, parse: string -> Option<int>): World {
    if steps == [] then w else Next(Exec(w, steps[..|steps| - 1], parse), steps[|steps| - 1], parse)
  }

  /** What `timekeepd --restore` would set the clock to at boot. */
  function Restore(w: World, rtcSec: int, nowMs: int, parse: string -> Option<int>): Option<int> {
    var saved := Load(w.disk, parse);
    if saved.None? then None else RestoreTargetMs(saved.value, rtcSec, nowMs)
  }

  /** A measurement the saved record stands for: no reason to save it again. */
  predicate Near(saved: Record, m: Record) {
    && saved.rtcSec <= m.rtcSec
    && Abs(m.offsetMs - saved.offsetMs) < SAVE_THRESHOLD_MS
    && m.WallMs() - saved.WallMs() < REFRESH_MS
  }

  ghost predicate Inv(w: World, parse: string -> Option<int>) {
    && |w.durable| > 0 && w.durable[|w.durable| - 1] == w.disk
    && w.saved == Load(w.durable[0], parse)
    && (|w.durable| > 1 ==> Load(w.disk, parse) != w.saved)
    && (w.last.Some? ==> IsSet(w.last.value))
  }

  lemma {:induction false} RunOk(disk: string, steps: seq<Step>, parse: string -> Option<int>)
    requires Inverts(parse)
    ensures Inv(Exec(Boot(disk, parse), steps, parse), parse)
  {
    if steps != [] {
      var before, step := Exec(Boot(disk, parse), steps[..|steps| - 1], parse), steps[|steps| - 1];
      RunOk(disk, steps[..|steps| - 1], parse);
      if step.Measure? {
        MeasuredOk(before, Record(step.nowMs - step.rtcSec * 1000, step.rtcSec), step.outcome, parse);
      }
    }
  }

  lemma MeasuredOk(w: World, current: Record, outcome: SaveOutcome, parse: string -> Option<int>)
    requires Inverts(parse) && Inv(w, parse)
    ensures Inv(Measured(w, current, outcome), parse)
  {
    if Valid(current) { SavedLoadsBack(current, parse); }
  }

  /**
   After any run the daemon's copy is what a restart would load, except exactly while a rename is
   not yet known to be durable.
   */
  lemma MemoryIsTheDisk(disk: string, steps: seq<Step>, parse: string -> Option<int>)
    requires Inverts(parse)
    ensures var w := Exec(Boot(disk, parse), steps, parse);
            w.saved == Load(w.disk, parse) <==> |w.durable| == 1
  {
    RunOk(disk, steps, parse);
  }

  // ------------------------------------------------------------------------
  // What a restore may be off by
  // ------------------------------------------------------------------------

  /** After every run a restore moves the clock forward, to a plausible time no earlier than the saved one. */
  lemma RestoreIsSafe(disk: string, steps: seq<Step>, rtcSec: int, nowMs: int, parse: string -> Option<int>)
    ensures
      var w := Exec(Boot(disk, parse), steps, parse);
      var saved, target := Load(w.disk, parse), Restore(w, rtcSec, nowMs, parse);
      target.Some? ==>
        && nowMs < target.value < MAX_WALL_MS
        && saved.Some? && Valid(saved.value) && target.value >= saved.value.WallMs()
  {
    LoadedIsValid(Exec(Boot(disk, parse), steps, parse).disk, parse);
  }

  lemma LoadedIsValid(text: string, parse: string -> Option<int>)
    ensures var r := Load(text, parse); r.Some? ==> Valid(r.value)
  {
  }

  /**
   A restored time less than an hour behind the measurement `m`, whatever the counter did, and, if
   the counter kept running since, off by less than a second from the counter plus the offset of `m`.
   */
  predicate IsClose(m: Record, rtcSec: int, target: int) {
    && target > m.WallMs() - REFRESH_MS
    && (rtcSec >= m.rtcSec ==> Abs(target - (rtcSec * 1000 + m.offsetMs)) < SAVE_THRESHOLD_MS)
  }

  /** Whatever counter and clock the phone boots with, what is restored from `saved` is close to `m`. */
  ghost predicate RestoresClose(saved: Record, m: Record) {
    forall rtcSec, nowMs {:trigger RestoreTargetMs(saved, rtcSec, nowMs)} :: 0 <= rtcSec <= MAX_RTC_SEC ==>
      var target := RestoreTargetMs(saved, rtcSec, nowMs);
      target.Some? ==> IsClose(m, rtcSec, target.value)
  }

  /** How many seconds the counter must have fallen back before a clock near it counts as behind the saved time. */
  function Fallback(saved: Record): nat {
    if saved.offsetMs > 1 - UNSET_CLOCK_MARGIN_MS then 0 else (1 - UNSET_CLOCK_MARGIN_MS - saved.offsetMs) / 1000 + 1
  }

  /** Whether a counter that kept running up to `rtcSec` can still lead to a restore. */
  predicate Reaches(saved: Record, rtcSec: int) {
    rtcSec * 1000 + 1 - UNSET_CLOCK_MARGIN_MS < saved.WallMs() && rtcSec * 1000 + saved.offsetMs < MAX_WALL_MS
  }

  /** Whether the record `saved` stands for the measurement `m`. */
  predicate StandsFor(saved: Record, m: Record) {
    var drift := saved.offsetMs - m.offsetMs;
    && saved.WallMs() > m.WallMs() - REFRESH_MS
    && if m.rtcSec <= saved.rtcSec - Fallback(saved) then
         (saved.rtcSec - m.rtcSec) * 1000 + drift < SAVE_THRESHOLD_MS
         && Fallback(saved) * 1000 + drift > -SAVE_THRESHOLD_MS
       else
         Fallback(saved) == 0 && Reaches(saved, m.rtcSec) ==> Abs(drift) < SAVE_THRESHOLD_MS
  }

  lemma RestoresFrom(saved: Record, rtcSec: int, nowMs: int)
    requires Valid(saved) && Abs(nowMs - rtcSec * 1000) < UNSET_CLOCK_MARGIN_MS && nowMs < saved.WallMs()
    requires rtcSec <= saved.rtcSec || rtcSec * 1000 + saved.offsetMs < MAX_WALL_MS
    ensures RestoreTargetMs(saved, rtcSec, nowMs) ==
      Some(if rtcSec <= saved.rtcSec then saved.WallMs() else rtcSec * 1000 + saved.offsetMs)
  {
  }

  lemma FallbackIs(saved: Record, rtcSec: int)
    requires rtcSec <= saved.rtcSec
    ensures rtcSec * 1000 + 1 - UNSET_CLOCK_MARGIN_MS < saved.WallMs() <==> rtcSec <= saved.rtcSec - Fallback(saved)
  {
    var back := saved.rtcSec - rtcSec;
    assert rtcSec * 1000 + 1 - UNSET_CLOCK_MARGIN_MS < saved.WallMs() <==>
           1 - UNSET_CLOCK_MARGIN_MS - saved.offsetMs < back * 1000;
  }

  lemma RestoresCloseAt(saved: Record, m: Record, rtcSec: int)
    requires Valid(saved) && RestoresClose(saved, m) && 0 <= rtcSec <= MAX_RTC_SEC
    requires rtcSec * 1000 + 1 - UNSET_CLOCK_MARGIN_MS < saved.WallMs()
    requires rtcSec <= saved.rtcSec || rtcSec * 1000 + saved.offsetMs < MAX_WALL_MS
    ensures IsClose(m, rtcSec, if rtcSec <= saved.rtcSec then saved.WallMs() else rtcSec * 1000 + saved.offsetMs)
  {
    RestoresFrom(saved, rtcSec, rtcSec * 1000 + 1 - UNSET_CLOCK_MARGIN_MS);
  }

  lemma CloseMeansStands(saved: Record, m: Record)
    requires Valid(saved) && Valid(m) && RestoresClose(saved, m)
    ensures StandsFor(saved, m)
  {
    RestoresCloseAt(saved, m, 0);
    if m.rtcSec <= saved.rtcSec - Fallback(saved) {
      FallbackIs(saved, m.rtcSec);
      RestoresCloseAt(saved, m, m.rtcSec);
      FallbackIs(saved, saved.rtcSec - Fallback(saved));
      RestoresCloseAt(saved, m, saved.rtcSec - Fallback(saved));
    } else if Fallback(saved) == 0 && Reaches(saved, m.rtcSec) {
      RestoresCloseAt(saved, m, m.rtcSec);
    }
  }

  lemma StandsMeansCloseAt(saved: Record, m: Record, rtcSec: int, nowMs: int)
    requires Valid(saved) && Valid(m) && StandsFor(saved, m)
    ensures
      var target := RestoreTargetMs(saved, rtcSec, nowMs);
      target.Some? ==> IsClose(m, rtcSec, target.value)
  {
    if RestoreTargetMs(saved, rtcSec, nowMs).Some? && rtcSec >= m.rtcSec {
      if rtcSec <= saved.rtcSec { FallbackIs(saved, rtcSec); } else { FallbackIs(saved, saved.rtcSec); }
    }
  }

  /** Every restore is close to a measurement exactly if the record it is made from stands for it. */
  lemma CloseIffStands(saved: Record, m: Record)
    requires Valid(saved) && Valid(m)
    ensures RestoresClose(saved, m) <==> StandsFor(saved, m)
  {
    if RestoresClose(saved, m) { CloseMeansStands(saved, m); }
    if StandsFor(saved, m) {
      forall rtcSec, nowMs | 0 <= rtcSec <= MAX_RTC_SEC
        ensures var target := RestoreTargetMs(saved, rtcSec, nowMs); target.Some? ==> IsClose(m, rtcSec, target.value)
      {
        StandsMeansCloseAt(saved, m, rtcSec, nowMs);
      }
    }
  }

  /**
   After every run of measurements, saves with any outcome and power losses, all restores are close
   to the last measurement of a set clock exactly if the record on disk stands for it.
   */
  lemma RestoreIsCloseIff(disk: string, steps: seq<Step>, parse: string -> Option<int>)
    requires Inverts(parse)
    ensures
      var w := Exec(Boot(disk, parse), steps, parse);
      var saved := Load(w.disk, parse);
      saved.Some? && w.last.Some? ==>
        ((forall rtcSec, nowMs {:trigger Restore(w, rtcSec, nowMs, parse)} :: 0 <= rtcSec <= MAX_RTC_SEC ==>
            var target := Restore(w, rtcSec, nowMs, parse);
            target.Some? ==> IsClose(w.last.value, rtcSec, target.value))
         <==> StandsFor(saved.value, w.last.value))
  {
    var w := Exec(Boot(disk, parse), steps, parse);
    RunOk(disk, steps, parse);
    LoadedIsValid(w.disk, parse);
    var saved := Load(w.disk, parse);
    if saved.Some? && w.last.Some? {
      CloseIffStands(saved.value, w.last.value);
      assert forall rtcSec, nowMs ::
        Restore(w, rtcSec, nowMs, parse) == RestoreTargetMs(saved.value, rtcSec, nowMs);
    }
  }

  /** Every save that was needed in the run reached the disk. */
  predicate AllSaved(w: World, steps: seq<Step>, parse: string -> Option<int>) {
    steps != [] ==>
      var before, step := Exec(w, steps[..|steps| - 1], parse), steps[|steps| - 1];
      && AllSaved(w, steps[..|steps| - 1], parse)
      && (step.Measure? && NeedsSave(before.saved, Record(step.nowMs - step.rtcSec * 1000, step.rtcSec)) ==>
            step.outcome == Saved)
  }

  lemma {:induction false} SavesStand(disk: string, steps: seq<Step>, parse: string -> Option<int>)
    requires Inverts(parse) && AllSaved(Boot(disk, parse), steps, parse)
    ensures IsUpToDate(Exec(Boot(disk, parse), steps, parse), parse)
  {
    if steps != [] {
      var before, step := Exec(Boot(disk, parse), steps[..|steps| - 1], parse), steps[|steps| - 1];
      SavesStand(disk, steps[..|steps| - 1], parse);
      if step.Measure? {
        SaveStands(before, Record(step.nowMs - step.rtcSec * 1000, step.rtcSec), step.outcome, parse);
      }
    }
  }

  /** The record in memory is the one on disk, and stands for the last measurement. */
  ghost predicate IsUpToDate(w: World, parse: string -> Option<int>) {
    && w.durable == [w.disk] && w.saved == Load(w.disk, parse)
    && (w.last.Some? ==> w.saved.Some? && Near(w.saved.value, w.last.value))
  }

  lemma SaveStands(w: World, current: Record, outcome: SaveOutcome, parse: string -> Option<int>)
    requires Inverts(parse) && IsUpToDate(w, parse) && (NeedsSave(w.saved, current) ==> outcome == Saved)
    ensures IsUpToDate(Measured(w, current, outcome), parse)
  {
    if Valid(current) { SavedLoadsBack(current, parse); }
  }

  lemma NearStands(saved: Record, m: Record)
    requires Near(saved, m)
    ensures StandsFor(saved, m)
  {
  }

  /** If every save that was needed reached the disk, every restore is close to the last measurement. */
  lemma SavesKeepRestoresClose(disk: string, steps: seq<Step>, rtcSec: int, nowMs: int, parse: string -> Option<int>)
    requires Inverts(parse) && AllSaved(Boot(disk, parse), steps, parse)
    ensures
      var w := Exec(Boot(disk, parse), steps, parse);
      var target := Restore(w, rtcSec, nowMs, parse);
      w.last.Some? && target.Some? ==> IsClose(w.last.value, rtcSec, target.value)
  {
    var w := Exec(Boot(disk, parse), steps, parse);
    SavesStand(disk, steps, parse);
    RunOk(disk, steps, parse);
    LoadedIsValid(w.disk, parse);
    if w.last.Some? {
      NearStands(w.saved.value, w.last.value);
      StandsMeansCloseAt(w.saved.value, w.last.value, rtcSec, nowMs);
    }
  }

  /** What the daemon measured as `m`. */
  function Measuring(m: Record, outcome: SaveOutcome): Step {
    Measure(m.rtcSec, m.WallMs(), outcome)
  }

  /**
   A save that renamed the record but could not sync the directory reports failure, so disk and
   memory disagree. If the clock is then set back to what memory holds, no save is needed, but a
   restore is off by as much as the unsynced record was.
   */
  lemma UnsyncedSaveBreaksTheBound(a: Record, b: Record, c: Record, parse: string -> Option<int>)
    requires Inverts(parse) && IsSet(a) && IsSet(b) && IsSet(c)
    requires a.rtcSec < b.rtcSec < c.rtcSec && c.rtcSec - a.rtcSec < 3600
    requires c.offsetMs == a.offsetMs && b.offsetMs >= a.offsetMs + 600_000
    ensures
      var w := Exec(Boot([], parse), [Measuring(a, Saved), Measuring(b, RenamedButNotSynced), Measuring(c, Saved)], parse);
      && w.last == Some(c) && Load(w.disk, parse) == Some(b) && (Reaches(b, c.rtcSec) ==> !StandsFor(b, c))
      && (forall rtcSec :: c.rtcSec <= rtcSec && rtcSec * 1000 < b.WallMs() && rtcSec * 1000 + b.offsetMs < MAX_WALL_MS ==>
            Restore(w, rtcSec, rtcSec * 1000, parse) == Some(rtcSec * 1000 + b.offsetMs))
  {
    var w0 := Boot([], parse);
    var w1 := Measured(w0, a, Saved);
    var w2 := Measured(w1, b, RenamedButNotSynced);
    var m1, m2, m3 := Measuring(a, Saved), Measuring(b, RenamedButNotSynced), Measuring(c, Saved);
    OneMore(w0, [], m1, a, Saved, parse);
    assert [] + [m1] == [m1] && [m1] + [m2] == [m1, m2] && [m1, m2] + [m3] == [m1, m2, m3];
    OneMore(w0, [m1], m2, b, RenamedButNotSynced, parse);
    OneMore(w0, [m1, m2], m3, c, Saved, parse);
    FirstIsSaved(w0, a);
    ThenUnsynced(w1, a, b);
    ThenNotNeeded(w2, a, c);
    SavedLoadsBack(b, parse);
    if Reaches(b, c.rtcSec) { FarOff(b, c); }
  }

  lemma FarOff(b: Record, c: Record)
    requires b.rtcSec < c.rtcSec && b.offsetMs >= c.offsetMs + 600_000 && Reaches(b, c.rtcSec)
    ensures !StandsFor(b, c)
  {
  }

  lemma OneMore(w: World, steps: seq<Step>, step: Step, m: Record, outcome: SaveOutcome, parse: string -> Option<int>)
    requires step == Measuring(m, outcome)
    ensures Exec(w, steps + [step], parse) == Measured(Exec(w, steps, parse), m, outcome)
  {
    assert (steps + [step])[..|steps|] == steps;
  }

  lemma FirstIsSaved(w: World, a: Record)
    requires IsSet(a) && w.saved == None
    ensures var v := Measured(w, a, Saved); v.saved == Some(a) && v.disk == FormatRecord(a)
  {
  }

  lemma ThenUnsynced(w: World, a: Record, b: Record)
    requires IsSet(b) && w.saved == Some(a) && b.offsetMs >= a.offsetMs + 600_000
    ensures var v := Measured(w, b, RenamedButNotSynced); v.saved == Some(a) && v.disk == FormatRecord(b)
  {
  }

  lemma ThenNotNeeded(w: World, a: Record, c: Record)
    requires IsSet(c) && w.saved == Some(a) && c.offsetMs == a.offsetMs && 0 <= c.rtcSec - a.rtcSec < 3600
    ensures var v := Measured(w, c, Saved); v.disk == w.disk && v.last == Some(c)
  {
  }

  /** The daemon's record in memory and on disk, and the clock it may set. */
  class TimeKeeper {
    var disk: string
    var saved: Option<Record>
    var clockMs: int

    constructor (disk: string, clockMs: int, parse: string -> Option<int>)
      ensures this.disk == disk && saved == Load(disk, parse) && this.clockMs == clockMs
    {
      this.disk, this.clockMs := disk, clockMs;
      saved := Load(disk, parse);
    }

    /** One wake-up of the daemon, with what became of a save it may attempt. */
    method MeasureOffset(rtcSec: Option<int>, outcome: SaveOutcome)
      modifies this`disk, this`saved
      ensures rtcSec.None? ==> disk == old(disk) && saved == old(saved)
      ensures rtcSec.Some? ==>
        var w := Measured(World(old(disk), [], old(saved), None),
                          Record(clockMs - rtcSec.value * 1000, rtcSec.value), outcome);
        disk == w.disk && saved == w.saved
    {
      if rtcSec.None? { return; }
      var current := Record(clockMs - rtcSec.value * 1000, rtcSec.value);
      if !NeedsSave(saved, current) { return; }
      if outcome != NotWritten { disk := FormatRecord(current); }
      if outcome != Saved { return; }
      saved := Some(current);
    }

    /** The whole of a run with `--restore`. */
    method RestoreClock(rtcSec: Option<int>, parse: string -> Option<int>)
      modifies this`clockMs
      ensures clockMs ==
        if rtcSec.None? then old(clockMs)
        else var target := Restore(World(disk, [], saved, None), rtcSec.value, old(clockMs), parse);
             if target.None? then old(clockMs) else target.value
    {
      var record := Load(disk, parse);
      if record.None? || rtcSec.None? { return; }
      var target := RestoreTargetMs(record.value, rtcSec.value, clockMs);
      if target.None? { return; }
      clockMs := target.value;
    }
  }
}
