/** Runs of the dead man's switch manager in which its promises fail. */
module DeadmanExamples {
  import opened DeadmanSwitches
  import opened DeadmanRuns

  function Example(id: string, to: seq<string>, deadline: int, lastCheckIn: int, status: Status, createdAt: int)
    : Record
  {
    Record(id, deadline, 10, lastCheckIn, status, to, "", 0, createdAt)
  }

  /** A switch as it was armed at time 1, with an interval of 10. */
  function FirstArmed(id: string, to: seq<string>): Record {
    Example(id, to, 11, 1, Armed, 1)
  }

  /** One switch in memory and on disk, and no trigger call yet. */
  function Single(r: Record, saved: Record, toFire: seq<nat>, clock: int, derived: bool): (s: State<nat>)
    requires r.id == saved.id
    ensures r.id in s.switches && s.switches[r.id] == 0
  {
    State(map[r.id := 0], map[0 := r], map[r.id := saved], toFire, clock, [],
          if derived then {0} else {}, if derived then {r.id} else {})
  }

  /** The switch armed at time 1, and in flight from time 12. */
  function Ticked(id: string, to: seq<string>): State<nat> {
    Single(FirstArmed(id, to).(status := Fired), FirstArmed(id, to), [0], 12, true)
  }

  /** The manager at its start. */
  ghost predicate IsInitial(s: State<nat>) {
    WellFormed(s) && s.switches == map[] && s.objects == map[] && s.disk == map[] && s.log == []
  }

  lemma ExampleArm(id: string, to: seq<string>) returns (s: State<nat>, step: Step<nat>)
    requires id != "" && to != []
    ensures IsInitial(s) && Enabled(s, step)
    ensures Next(s, step) == Single(FirstArmed(id, to), FirstArmed(id, to), [], 1, true)
  {
    s := State(map[], map[], map[], [], 0, [], {}, {});
    step := Arm(0, Example(id, to, 0, 0, Disarmed, 0), 1);
  }

  lemma ExampleCollect(id: string, to: seq<string>) returns (step: Step<nat>)
    ensures var s := Single(FirstArmed(id, to), FirstArmed(id, to), [], 1, true);
            WellFormed(s) && Enabled(s, step) && Next(s, step) == Ticked(id, to) && WellFormed(Ticked(id, to))
  {
    step := Collect([0], 12);
  }

  /** Runs that go on from there are runs from the start. */
  lemma FromTheStart(id: string, to: seq<string>, rest: seq<Step<nat>>) returns (s: State<nat>, steps: seq<Step<nat>>)
    requires id != "" && to != [] && WellFormed(Ticked(id, to)) && Allowed(Ticked(id, to), rest)
    ensures IsInitial(s) && Allowed(s, steps) && Run(s, steps) == Run(Ticked(id, to), rest)
  {
    var arm, collect;
    s, arm := ExampleArm(id, to);
    collect := ExampleCollect(id, to);
    steps := FirstStep(Single(FirstArmed(id, to), FirstArmed(id, to), [], 1, true), collect, rest);
    steps := FirstStep(s, arm, steps);
  }

  // Arming again while the trigger is in flight.

  lemma ExampleRearm(id: string, to: seq<string>) returns (step: Step<nat>)
    requires id != "" && to != []
    ensures var r := Example(id, to, 11, 13, Armed, 13);
            && WellFormed(Ticked(id, to)) && Enabled(Ticked(id, to), step)
            && Next(Ticked(id, to), step) == Single(r, r, [0], 13, false)
  {
    step := Arm(0, FirstArmed(id, to).(status := Fired), 13);
  }

  lemma ExampleCheckIn(id: string, to: seq<string>) returns (step: Step<nat>)
    ensures var before, after := Example(id, to, 11, 13, Armed, 13), Example(id, to, 24, 14, Armed, 13);
            var s := Single(before, before, [0], 13, false);
            && WellFormed(s) && Enabled(s, step) && Next(s, step) == Single(after, after, [0], 14, false)
            && Reschedules(s, step)
  {
    step := CheckIn(id, 14);
  }

  /** A check-in on a switch that was armed again while in flight moves the deadline past the call under way. */
  lemma RearmInFlightFiresEarly(id: string, to: seq<string>) returns (s: State<nat>, steps: seq<Step<nat>>)
    requires id != "" && to != []
    ensures IsInitial(s) && Allowed(s, steps)
    ensures |Run(s, steps).log| == 1 && Run(s, steps).log[0].time < Run(s, steps).log[0].record.deadline
  {
    var rearmed, checkedIn := Example(id, to, 11, 13, Armed, 13), Example(id, to, 24, 14, Armed, 13);
    var rearm := ExampleRearm(id, to);
    var checkIn := ExampleCheckIn(id, to);
    var s4 := Single(checkedIn, checkedIn, [0], 14, false);
    StepKeepsWellFormed(Single(rearmed, rearmed, [0], 13, false), checkIn);
    StepKeepsWellFormed(s4, Complete(true, 15));
    steps := FirstStep(s4, Complete(true, 15), []);
    steps := FirstStep(Single(rearmed, rearmed, [0], 13, false), checkIn, steps);
    steps := FirstStep(Ticked(id, to), rearm, steps);
    s, steps := FromTheStart(id, to, steps);
  }

  // Disarming while the trigger is in flight.

  lemma ExampleDisarm(id: string, to: seq<string>)
    ensures var r := FirstArmed(id, to).(status := Cancelled);
            && WellFormed(Ticked(id, to)) && Enabled(Ticked(id, to), Disarm(id, 13))
            && Next(Ticked(id, to), Disarm(id, 13)) == Single(r, r, [0], 13, true)
  {
  }

  /** The manager holds an armed switch of this id, whose file has the other status. */
  ghost predicate ArmedButSaved(s: State<nat>, id: string, status: Status) {
    && WellFormed(s) && s.toFire == []
    && id in s.switches && s.objects[s.switches[id]].status == Armed
    && id in s.disk && s.disk[id].status == status
  }

  lemma ExampleFailure(id: string, to: seq<string>)
    ensures var r := FirstArmed(id, to).(status := Cancelled);
            var s := Single(r, r, [0], 13, true);
            && WellFormed(s) && Enabled(s, Complete(false, 14))
            && ArmedButSaved(Next(s, Complete(false, 14)), id, Cancelled)
  {
  }

  /** A switch that was disarmed while its trigger was in flight is armed again, and only its file says cancelled. */
  lemma DisarmUndoneByFailure(id: string, to: seq<string>) returns (s: State<nat>, steps: seq<Step<nat>>)
    requires id != "" && to != []
    ensures IsInitial(s) && Allowed(s, steps) && ArmedButSaved(Run(s, steps), id, Cancelled)
  {
    var r := FirstArmed(id, to).(status := Cancelled);
    ExampleDisarm(id, to);
    ExampleFailure(id, to);
    steps := FirstStep(Single(r, r, [0], 13, true), Complete(false, 14), []);
    steps := FirstStep(Ticked(id, to), Disarm(id, 13), steps);
    s, steps := FromTheStart(id, to, steps);
  }

  // Replacing a switch while its trigger is in flight.

  /** Two switches of one id, of which the second is in memory and the first in flight. */
  function Replaced(id: string, to: seq<string>): State<nat> {
    var second := Example(id, to, 23, 13, Armed, 13);
    State(map[id := 1], map[0 := FirstArmed(id, to).(status := Fired), 1 := second], map[id := second], [0], 13, [],
          {0, 1}, {id})
  }

  lemma ExampleReplace(id: string, to: seq<string>) returns (step: Step<nat>)
    requires id != "" && to != []
    ensures WellFormed(Ticked(id, to)) && Enabled(Ticked(id, to), step)
    ensures Next(Ticked(id, to), step) == Replaced(id, to)
  {
    step := Arm(1, Example(id, to, 0, 0, Disarmed, 0), 13);
  }

  lemma ExampleSuccess(id: string, to: seq<string>)
    ensures && WellFormed(Replaced(id, to)) && Enabled(Replaced(id, to), Complete(true, 14))
            && ArmedButSaved(Next(Replaced(id, to), Complete(true, 14)), id, Fired)
  {
  }

  /** A switch that replaced one in flight is armed in memory, but its file says that it has fired: a crash loses it. */
  lemma ReplacementOverwritten(id: string, to: seq<string>) returns (s: State<nat>, steps: seq<Step<nat>>)
    requires id != "" && to != []
    ensures IsInitial(s) && Allowed(s, steps) && ArmedButSaved(Run(s, steps), id, Fired)
  {
    var replace := ExampleReplace(id, to);
    ExampleSuccess(id, to);
    steps := FirstStep(Replaced(id, to), Complete(true, 14), []);
    steps := FirstStep(Ticked(id, to), replace, steps);
    s, steps := FromTheStart(id, to, steps);
  }

  // Disarming a switch that has replaced one in flight.

  /** The first switch, armed again at 13, is in flight and in the file; the second replaced it at 14. */
  function ReplacedArmed(id: string, to: seq<string>, second: Status, clock: int): State<nat> {
    var record := Example(id, to, 24, 14, second, 14);
    State(map[id := 1], map[0 := Example(id, to, 11, 13, Armed, 13), 1 := record], map[id := record], [0], clock, [],
          {1}, {id})
  }

  lemma ExampleReplaceArmed(id: string, to: seq<string>) returns (step: Step<nat>)
    requires id != "" && to != []
    ensures var r := Example(id, to, 11, 13, Armed, 13);
            var s := Single(r, r, [0], 13, false);
            WellFormed(s) && Enabled(s, step) && Next(s, step) == ReplacedArmed(id, to, Armed, 14)
  {
    step := Arm(1, Example(id, to, 0, 0, Disarmed, 0), 14);
  }

  lemma ExampleDisarmSecond(id: string, to: seq<string>)
    ensures var s := ReplacedArmed(id, to, Armed, 14);
            && WellFormed(s) && Enabled(s, Disarm(id, 15))
            && Next(s, Disarm(id, 15)) == ReplacedArmed(id, to, Cancelled, 15)
  {
  }

  /** The disarmed switch is in memory, but the file holds the first one, armed. */
  function Overwritten(id: string, to: seq<string>): State<nat> {
    var s, first := ReplacedArmed(id, to, Cancelled, 16), Example(id, to, 11, 13, Armed, 13);
    s.(disk := map[id := first], toFire := [], log := [Trigger(0, first, 16, true, false)], derivedOnDisk := {})
  }

  lemma ExampleSuccessArmed(id: string, to: seq<string>)
    ensures var s := ReplacedArmed(id, to, Cancelled, 15);
            WellFormed(s) && Enabled(s, Complete(true, 16)) && Next(s, Complete(true, 16)) == Overwritten(id, to)
  {
  }

  lemma ExampleRestart(id: string, to: seq<string>)
    ensures var s, step := Overwritten(id, to), Restart(map[id := 2], 17);
            WellFormed(s) && Enabled(s, step) && ArmedButSaved(Next(s, step), id, Armed)
  {
  }

  /** A switch that was disarmed while it was not in flight, and never armed again, is armed after a crash. */
  lemma DisarmedReplacementReturns(id: string, to: seq<string>)
      returns (s: State<nat>, before: seq<Step<nat>>, after: seq<Step<nat>>)
    requires id != "" && to != []
    ensures IsInitial(s) && Allowed(s, before) && IsCancelled(Run(s, before), id)
    ensures Run(s, before).switches[id] !in Run(s, before).toFire && Allowed(Run(s, before), after)
    ensures Throughout(NeverArming(id), Run(s, before), after) && ArmedButSaved(Run(Run(s, before), after), id, Armed)
  {
    var r := Example(id, to, 11, 13, Armed, 13);
    var rearm := ExampleRearm(id, to);
    var replace := ExampleReplaceArmed(id, to);
    ExampleDisarmSecond(id, to);
    StepKeepsWellFormed(ReplacedArmed(id, to, Armed, 14), Disarm(id, 15));
    before := FirstStep(ReplacedArmed(id, to, Armed, 14), Disarm(id, 15), []);
    before := FirstStep(Single(r, r, [0], 13, false), replace, before);
    before := FirstStep(Ticked(id, to), rearm, before);
    s, before := FromTheStart(id, to, before);
    after := ExampleAfterwards(id, to);
  }

  lemma ExampleAfterwards(id: string, to: seq<string>) returns (steps: seq<Step<nat>>)
    ensures var s := ReplacedArmed(id, to, Cancelled, 15);
            && WellFormed(s) && Allowed(s, steps) && Throughout(NeverArming(id), s, steps)
            && ArmedButSaved(Run(s, steps), id, Armed)
  {
    var restart := Restart(map[id := 2], 17);
    ExampleSuccessArmed(id, to);
    ExampleRestart(id, to);
    steps := FirstStep(Overwritten(id, to), restart, []);
    steps := FirstStep(ReplacedArmed(id, to, Cancelled, 15), Complete(true, 16), steps);
    assert steps == [Complete(true, 16), restart];
    assert steps[1..] == [restart] && steps[1..][1..] == [];
  }

  // Negative intervals.

  /** A switch with the interval -1: checking in does not bring the deadline and the last check-in together again. */
  lemma NegativeIntervalDrifts(id: string, to: seq<string>) returns (fields: Record)
    requires id != "" && to != []
    ensures fields.deadline == 0 && ArmResult(fields).Success?
    ensures var r := CheckedIn(ArmedRecord(fields, 5), 7); r.deadline != r.lastCheckIn + r.interval
  {
    fields := Record(id, 0, -1, 0, Disarmed, to, "", 0, 0);
    CheckInKeepsSyncIff(fields, 5, 7);
  }
}
