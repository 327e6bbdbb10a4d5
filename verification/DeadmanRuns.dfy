/** What holds over whole runs of the dead man's switch manager. */
module DeadmanRuns {
  import opened DeadmanSwitches

  ghost predicate Allowed<Ref>(s: State<Ref>, steps: seq<Step<Ref>>)
    requires WellFormed(s)
    decreases |steps|
  {
    steps == []
    || (Enabled(s, steps[0])
        && (StepKeepsWellFormed(s, steps[0]);
            Allowed(Next(s, steps[0]), steps[1..])))
  }

  ghost function Run<Ref>(s: State<Ref>, steps: seq<Step<Ref>>): (s': State<Ref>)
    requires WellFormed(s) && Allowed(s, steps)
    ensures WellFormed(s')
    decreases |steps|
  {
    if steps == [] then s
    else
      StepKeepsWellFormed(s, steps[0]);
      Run(Next(s, steps[0]), steps[1..])
  }

  /** Conditions on the steps of a run. */
  datatype Guard =
    | CleanFinishes        // no trigger ends after its switch was disarmed or replaced, unless harmlessly
    | AtomicTicks          // nothing but a restart comes between collecting and the end of the last trigger
    | NeverRescheduling    // no deadline is moved ahead of a trigger that is in flight
    | NeverArming(id: string)

  /** The step moves the deadline of an object in flight so that its trigger is no longer overdue. */
  ghost predicate Reschedules<Ref>(s: State<Ref>, step: Step<Ref>)
    requires WellFormed(s)
  {
    match step
    case Arm(r, fields, _) =>
      ArmResult(fields).Success? && r in s.toFire && fields.deadline == 0 && fields.interval + fields.grace >= 0
    case CheckIn(id, _) =>
      && CheckInResult(s, id).Success? && s.switches[id] in s.toFire
      && var f := s.objects[s.switches[id]]; f.interval > 0 && f.interval + f.grace >= 0
    case _ => false
  }

  ghost predicate Meets<Ref>(guard: Guard, s: State<Ref>, step: Step<Ref>)
    requires WellFormed(s) && Enabled(s, step)
  {
    match guard
    case CleanFinishes => step.Complete? ==> CleanFinish(s, step.ok)
    case AtomicTicks => s.toFire != [] ==> step.Complete? || step.Restart?
    case NeverRescheduling => !Reschedules(s, step)
    case NeverArming(id) => step.Arm? ==> step.fields.id != id
  }

  ghost predicate Throughout<Ref>(guard: Guard, s: State<Ref>, steps: seq<Step<Ref>>)
    requires WellFormed(s) && Allowed(s, steps)
    decreases |steps|
  {
    steps == []
    || (Meets(guard, s, steps[0])
        && (StepKeepsWellFormed(s, steps[0]);
            Throughout(guard, Next(s, steps[0]), steps[1..])))
  }

  // Memory and disk.

  lemma StepKeepsAgreement<Ref>(s: State<Ref>, step: Step<Ref>)
    requires WellFormed(s) && Enabled(s, step) && DiskAgrees(s) && Meets(CleanFinishes, s, step)
    ensures WellFormed(Next(s, step)) && DiskAgrees(Next(s, step))
  {
    match step
    case Arm(_, _, _) => UpdateKeepsAgreement(s, step);
    case CheckIn(_, _) => UpdateKeepsAgreement(s, step);
    case Disarm(_, _) => UpdateKeepsAgreement(s, step);
    case Collect(_, _) => CollectKeepsAgreement(s, step);
    case Complete(_, _) => CompleteAgreesIff(s, step);
    case Restart(_, _) => RestartAgrees(s, step);
  }

  lemma {:induction false} RunKeepsAgreement<Ref>(s: State<Ref>, steps: seq<Step<Ref>>)
    requires WellFormed(s) && Allowed(s, steps) && DiskAgrees(s) && Throughout(CleanFinishes, s, steps)
    ensures DiskAgrees(Run(s, steps))
    decreases |steps|
  {
    if steps != [] {
      StepKeepsAgreement(s, steps[0]);
      RunKeepsAgreement(Next(s, steps[0]), steps[1..]);
    }
  }

  /** Between ticks, memory and disk hold the same records. */
  lemma QuiescentDiskEqualsMemory<Ref>(s: State<Ref>, id: string)
    requires WellFormed(s) && DiskAgrees(s) && s.toFire == [] && id in s.switches
    ensures id in s.disk && s.disk[id] == s.objects[s.switches[id]]
  {
  }

  ghost predicate InFlightFired<Ref>(s: State<Ref>)
    requires WellFormed(s)
  {
    forall r :: r in s.toFire ==> IsCurrent(s, r) && s.objects[r].status == Fired
  }

  lemma AtomicStep<Ref>(s: State<Ref>, step: Step<Ref>)
    requires WellFormed(s) && Enabled(s, step) && InFlightFired(s) && Meets(AtomicTicks, s, step)
    ensures Meets(CleanFinishes, s, step)
    ensures WellFormed(Next(s, step)) && InFlightFired(Next(s, step))
  {
    StepKeepsWellFormed(s, step);
    if step.Complete? {
      assert s.toFire[0] in s.toFire;
      var s' := Next(s, step);
      forall r | r in s'.toFire
        ensures IsCurrent(s', r) && s'.objects[r].status == Fired
      {
        assert r in s.toFire && r != s.toFire[0];
      }
    }
  }

  /** If ticks are atomic, memory and disk always agree. */
  lemma {:induction false} AtomicRunAgrees<Ref>(s: State<Ref>, steps: seq<Step<Ref>>)
    requires WellFormed(s) && Allowed(s, steps) && Throughout(AtomicTicks, s, steps)
    requires DiskAgrees(s) && InFlightFired(s)
    ensures DiskAgrees(Run(s, steps)) && InFlightFired(Run(s, steps))
    decreases |steps|
  {
    if steps != [] {
      AtomicStep(s, steps[0]);
      StepKeepsAgreement(s, steps[0]);
      AtomicRunAgrees(Next(s, steps[0]), steps[1..]);
    }
  }

  /** A restart loads exactly the switches that were armed or in flight, with the fields they had when armed. */
  lemma RestartRestoresArmed<Ref>(s: State<Ref>, refs: map<string, Ref>, now: int)
    requires WellFormed(s) && DiskAgrees(s) && FreshRefs(s.disk, refs) && s.clock <= now
    ensures var s' := Next(s, Restart(refs, now));
            && (forall id :: id in s'.switches <==>
                  id in s.switches && Expected(s, s.switches[id]).status == Armed)
            && (forall id :: id in s'.switches ==> s'.objects[s'.switches[id]] == Expected(s, s.switches[id]))
  {
  }

  /** A record that is on disk as fired had a trigger call that succeeded. */
  ghost predicate FiredMeansTriggered<Ref>(s: State<Ref>) {
    forall id :: id in s.disk && s.disk[id].status == Fired ==>
      exists i :: 0 <= i < |s.log| && s.log[i].ok && s.log[i].record == s.disk[id]
  }

  lemma StepKeepsFired<Ref>(s: State<Ref>, step: Step<Ref>)
    requires WellFormed(s) && Enabled(s, step) && FiredMeansTriggered(s)
    ensures FiredMeansTriggered(Next(s, step))
  {
    var s' := Next(s, step);
    forall id | id in s'.disk && s'.disk[id].status == Fired
      ensures exists i :: 0 <= i < |s'.log| && s'.log[i].ok && s'.log[i].record == s'.disk[id]
    {
      if step.Complete? && step.ok && id == s.objects[s.toFire[0]].id {
        assert s'.log[|s.log|].ok && s'.log[|s.log|].record == s'.disk[id];
      } else {
        assert id in s.disk && s.disk[id] == s'.disk[id];
        var i :| 0 <= i < |s.log| && s.log[i].ok && s.log[i].record == s.disk[id];
        assert s'.log[i] == s.log[i];
      }
    }
  }

  lemma {:induction false} RunKeepsFired<Ref>(s: State<Ref>, steps: seq<Step<Ref>>)
    requires WellFormed(s) && Allowed(s, steps) && FiredMeansTriggered(s)
    ensures FiredMeansTriggered(Run(s, steps))
    decreases |steps|
  {
    if steps != [] {
      StepKeepsWellFormed(s, steps[0]);
      StepKeepsFired(s, steps[0]);
      RunKeepsFired(Next(s, steps[0]), steps[1..]);
    }
  }

  // Timing.

  ghost predicate InSync(r: Record) {
    r.interval > 0 && r.deadline == r.lastCheckIn + r.interval
  }

  /** A deadline that arming or a check-in computed is the last check-in plus the interval. */
  ghost predicate DerivedInSync<Ref>(s: State<Ref>)
    requires WellFormed(s)
  {
    && (forall r :: r in s.derived ==> InSync(s.objects[r]))
    && (forall id :: id in s.derivedOnDisk ==> id in s.disk && InSync(s.disk[id]))
    && (forall i :: 0 <= i < |s.log| && s.log[i].derived ==> InSync(s.log[i].record))
  }

  /** Every trigger call came, and every one in flight will come, strictly after deadline plus grace. */
  ghost predicate Timely<Ref>(s: State<Ref>)
    requires WellFormed(s)
  {
    && (forall r :: r in s.toFire ==> s.clock > s.objects[r].deadline + s.objects[r].grace)
    && (forall i :: 0 <= i < |s.log| ==> s.log[i].time > s.log[i].record.deadline + s.log[i].record.grace)
  }

  lemma ArmKeepsSync<Ref>(s: State<Ref>, step: Step<Ref>)
    requires WellFormed(s) && Enabled(s, step) && DerivedInSync(s) && step.Arm?
    ensures WellFormed(Next(s, step)) && DerivedInSync(Next(s, step))
  {
    StepKeepsWellFormed(s, step);
  }

  lemma UpdateKeepsSync<Ref>(s: State<Ref>, step: Step<Ref>)
    requires WellFormed(s) && Enabled(s, step) && DerivedInSync(s) && (step.CheckIn? || step.Disarm?)
    ensures WellFormed(Next(s, step)) && DerivedInSync(Next(s, step))
  {
    StepKeepsWellFormed(s, step);
  }

  lemma TickKeepsSync<Ref>(s: State<Ref>, step: Step<Ref>)
    requires WellFormed(s) && Enabled(s, step) && DerivedInSync(s) && (step.Collect? || step.Complete? || step.Restart?)
    ensures WellFormed(Next(s, step)) && DerivedInSync(Next(s, step))
  {
    StepKeepsWellFormed(s, step);
  }

  lemma StepKeepsSync<Ref>(s: State<Ref>, step: Step<Ref>)
    requires WellFormed(s) && Enabled(s, step) && DerivedInSync(s)
    ensures WellFormed(Next(s, step)) && DerivedInSync(Next(s, step))
  {
    match step
    case Arm(_, _, _) => ArmKeepsSync(s, step);
    case CheckIn(_, _) => UpdateKeepsSync(s, step);
    case Disarm(_, _) => UpdateKeepsSync(s, step);
    case _ => TickKeepsSync(s, step);
  }

  lemma ArmTimelyIff<Ref>(s: State<Ref>, step: Step<Ref>)
    requires WellFormed(s) && Enabled(s, step) && Timely(s) && step.Arm?
    ensures WellFormed(Next(s, step)) && (Timely(Next(s, step)) <==> !Reschedules(s, step))
  {
    StepKeepsWellFormed(s, step);
  }

  lemma CheckInTimelyIff<Ref>(s: State<Ref>, step: Step<Ref>)
    requires WellFormed(s) && Enabled(s, step) && Timely(s) && step.CheckIn?
    ensures WellFormed(Next(s, step)) && (Timely(Next(s, step)) <==> !Reschedules(s, step))
  {
    StepKeepsWellFormed(s, step);
  }

  lemma DisarmKeepsTimely<Ref>(s: State<Ref>, step: Step<Ref>)
    requires WellFormed(s) && Enabled(s, step) && Timely(s) && step.Disarm?
    ensures WellFormed(Next(s, step)) && Timely(Next(s, step))
  {
    StepKeepsWellFormed(s, step);
  }

  lemma TickKeepsTimely<Ref>(s: State<Ref>, step: Step<Ref>)
    requires WellFormed(s) && Enabled(s, step) && Timely(s) && (step.Collect? || step.Complete? || step.Restart?)
    ensures WellFormed(Next(s, step)) && Timely(Next(s, step))
  {
    StepKeepsWellFormed(s, step);
  }

  /** A step leaves the triggers timely exactly if it does not reschedule one that is in flight. */
  lemma StepTimelyIff<Ref>(s: State<Ref>, step: Step<Ref>)
    requires WellFormed(s) && Enabled(s, step) && Timely(s)
    ensures WellFormed(Next(s, step)) && (Timely(Next(s, step)) <==> !Reschedules(s, step))
  {
    match step
    case Arm(_, _, _) => ArmTimelyIff(s, step);
    case CheckIn(_, _) => CheckInTimelyIff(s, step);
    case Disarm(_, _) => DisarmKeepsTimely(s, step);
    case _ => TickKeepsTimely(s, step);
  }

  /**
   * In every run in which no trigger in flight is rescheduled, each trigger call comes strictly after the
   * deadline plus the grace period; and if the deadline was computed from a positive interval, strictly
   * after the last check-in plus the interval plus the grace period.
   */
  lemma {:induction false} NoEarlyTrigger<Ref>(s: State<Ref>, steps: seq<Step<Ref>>)
    requires WellFormed(s) && Allowed(s, steps) && Throughout(NeverRescheduling, s, steps)
    requires DerivedInSync(s) && Timely(s)
    ensures DerivedInSync(Run(s, steps)) && Timely(Run(s, steps))
    ensures forall e :: e in Run(s, steps).log ==> e.time > e.record.deadline + e.record.grace
    ensures forall e :: e in Run(s, steps).log && e.derived ==>
              e.time > e.record.lastCheckIn + e.record.interval + e.record.grace
    decreases |steps|
  {
    if steps != [] {
      StepKeepsSync(s, steps[0]);
      StepTimelyIff(s, steps[0]);
      NoEarlyTrigger(Next(s, steps[0]), steps[1..]);
    }
  }

  /** The tick in flight can go on to call the trigger of any object it holds, at this very time. */
  lemma {:induction false} CanCallNow<Ref>(s: State<Ref>, k: nat) returns (steps: seq<Step<Ref>>, i: nat)
    requires WellFormed(s) && k < |s.toFire|
    ensures Allowed(s, steps) && i < |Run(s, steps).log|
    ensures Run(s, steps).log[i].time == s.clock && Run(s, steps).log[i].record == s.objects[s.toFire[k]]
    decreases k
  {
    var step := Complete(true, s.clock);
    StepKeepsWellFormed(s, step);
    var s1 := Next(s, step);
    if k == 0 {
      steps := FirstStep(s, step, []);
      i := |s.log|;
    } else {
      assert s1.toFire[k - 1] == s.toFire[k] && s1.objects == s.objects;
      steps, i := CanCallNow(s1, k - 1);
      steps := FirstStep(s, step, steps);
    }
  }

  /** Whoever reschedules a trigger in flight may see it called too early: the tick has only to go on at once. */
  lemma RescheduledCanFireEarly<Ref>(s: State<Ref>, step: Step<Ref>) returns (steps: seq<Step<Ref>>, i: nat)
    requires WellFormed(s) && Enabled(s, step) && Reschedules(s, step)
    ensures WellFormed(Next(s, step)) && Allowed(Next(s, step), steps) && i < |Run(Next(s, step), steps).log|
    ensures var e := Run(Next(s, step), steps).log[i]; e.time <= e.record.deadline + e.record.grace
  {
    StepKeepsWellFormed(s, step);
    var s1 := Next(s, step);
    var r := if step.Arm? then step.switch else s.switches[step.id];
    var k :| 0 <= k < |s1.toFire| && s1.toFire[k] == r;
    steps, i := CanCallNow(s1, k);
  }

  lemma FirstStep<Ref>(s: State<Ref>, step: Step<Ref>, rest: seq<Step<Ref>>) returns (steps: seq<Step<Ref>>)
    requires WellFormed(s) && Enabled(s, step) && WellFormed(Next(s, step)) && Allowed(Next(s, step), rest)
    ensures steps == [step] + rest && Allowed(s, steps) && Run(s, steps) == Run(Next(s, step), rest)
  {
    steps := [step] + rest;
    assert steps[1..] == rest;
  }

  /** After arming without a deadline, a check-in keeps deadline and last check-in together for a positive interval. */
  lemma CheckInKeepsSyncIff(fields: Record, armedAt: int, now: int)
    requires fields.deadline == 0 && ArmResult(fields).Success?
    ensures var r := ArmedRecord(fields, armedAt);
            && r.deadline == r.lastCheckIn + r.interval
            && (CheckedIn(r, now).deadline == CheckedIn(r, now).lastCheckIn + r.interval
                <==> fields.interval > 0 || now == armedAt)
  {
  }

  // A switch that was cancelled or has fired stays quiet.

  ghost predicate InFlight<Ref>(s: State<Ref>, id: string)
    requires WellFormed(s)
  {
    exists r :: r in s.toFire && s.objects[r].id == id
  }

  /** Neither memory nor disk holds an armed switch of this id, and none is in flight. */
  ghost predicate Quiet<Ref>(s: State<Ref>, id: string)
    requires WellFormed(s)
  {
    && !InFlight(s, id)
    && (id in s.switches ==> s.objects[s.switches[id]].status != Armed)
    && (id in s.disk ==> s.disk[id].status != Armed)
  }

  ghost predicate IsCancelled<Ref>(s: State<Ref>, id: string)
    requires WellFormed(s)
  {
    id in s.switches && s.objects[s.switches[id]].status == Cancelled
  }

  /** What a step that does not arm the id does to its quiet switch. */
  ghost predicate StaysQuiet<Ref>(s: State<Ref>, s': State<Ref>, id: string, restart: bool)
    requires WellFormed(s)
  {
    && WellFormed(s') && Quiet(s', id)
    && (IsCancelled(s, id) && !restart ==> IsCancelled(s', id))
    && s.log <= s'.log
    && forall i :: |s.log| <= i < |s'.log| ==> s'.log[i].record.id != id
  }

  lemma ArmKeepsQuiet<Ref>(s: State<Ref>, step: Step<Ref>, id: string)
    requires WellFormed(s) && Enabled(s, step) && Quiet(s, id) && Meets(NeverArming(id), s, step) && step.Arm?
    ensures StaysQuiet(s, Next(s, step), id, false)
  {
    StepKeepsWellFormed(s, step);
  }

  lemma UpdateKeepsQuiet<Ref>(s: State<Ref>, step: Step<Ref>, id: string)
    requires WellFormed(s) && Enabled(s, step) && Quiet(s, id) && (step.CheckIn? || step.Disarm?)
    ensures StaysQuiet(s, Next(s, step), id, false)
  {
    StepKeepsWellFormed(s, step);
  }

  lemma CollectKeepsQuiet<Ref>(s: State<Ref>, step: Step<Ref>, id: string)
    requires WellFormed(s) && Enabled(s, step) && Quiet(s, id) && step.Collect?
    ensures StaysQuiet(s, Next(s, step), id, false)
  {
    StepKeepsWellFormed(s, step);
  }

  lemma CompleteKeepsQuiet<Ref>(s: State<Ref>, step: Step<Ref>, id: string)
    requires WellFormed(s) && Enabled(s, step) && Quiet(s, id) && step.Complete?
    ensures StaysQuiet(s, Next(s, step), id, false)
  {
    StepKeepsWellFormed(s, step);
    assert s.toFire[0] in s.toFire;
  }

  lemma StepKeepsQuiet<Ref>(s: State<Ref>, step: Step<Ref>, id: string)
    requires WellFormed(s) && Enabled(s, step) && Quiet(s, id) && Meets(NeverArming(id), s, step)
    ensures StaysQuiet(s, Next(s, step), id, step.Restart?)
  {
    match step
    case Arm(_, _, _) => ArmKeepsQuiet(s, step, id);
    case CheckIn(_, _) => UpdateKeepsQuiet(s, step, id);
    case Disarm(_, _) => UpdateKeepsQuiet(s, step, id);
    case Collect(_, _) => CollectKeepsQuiet(s, step, id);
    case Complete(_, _) => CompleteKeepsQuiet(s, step, id);
    case Restart(_, _) => StepKeepsWellFormed(s, step);
  }

  ghost predicate HasRestart<Ref>(steps: seq<Step<Ref>>) {
    !forall i :: 0 <= i < |steps| ==> !steps[i].Restart?
  }

  /** Until the id is armed again, a quiet switch triggers no more, even across restarts; a cancelled one stays so. */
  lemma {:induction false} QuietUntilArmed<Ref>(s: State<Ref>, steps: seq<Step<Ref>>, id: string)
    requires WellFormed(s) && Allowed(s, steps) && Quiet(s, id) && Throughout(NeverArming(id), s, steps)
    ensures StaysQuiet(s, Run(s, steps), id, HasRestart(steps))
    decreases |steps|
  {
    if steps != [] {
      StepKeepsQuiet(s, steps[0], id);
      var s1 := Next(s, steps[0]);
      QuietUntilArmed(s1, steps[1..], id);
      var l := Run(s, steps).log;
      forall i | |s.log| <= i < |l|
        ensures l[i].record.id != id
      {
        assert i < |s1.log| ==> l[i] == s1.log[i];
      }
    }
  }

  /** A trigger that succeeds makes its id quiet exactly if neither its switch nor the one now in memory is armed. */
  lemma SuccessfulTriggerQuietsIff<Ref>(s: State<Ref>, now: int)
    requires WellFormed(s) && s.clock <= now && s.toFire != []
    ensures var id := s.objects[s.toFire[0]].id;
            && WellFormed(Next(s, Complete(true, now)))
            && (Quiet(Next(s, Complete(true, now)), id)
                <==> s.objects[s.toFire[0]].status != Armed && s.objects[s.switches[id]].status != Armed)
  {
    StepKeepsWellFormed(s, Complete(true, now));
    assert s.toFire[0] in s.toFire;
  }

  /** A switch whose trigger succeeded triggers no more until its id is armed again. */
  lemma SuccessLasts<Ref>(s: State<Ref>, now: int, steps: seq<Step<Ref>>)
      returns (id: string, s1: State<Ref>, s2: State<Ref>)
    requires WellFormed(s) && s.clock <= now && s.toFire != []
    requires s.objects[s.toFire[0]].status != Armed && s.objects[s.switches[s.objects[s.toFire[0]].id]].status != Armed
    requires WellFormed(Next(s, Complete(true, now))) && Allowed(Next(s, Complete(true, now)), steps)
    requires Throughout(NeverArming(s.objects[s.toFire[0]].id), Next(s, Complete(true, now)), steps)
    ensures id == s.objects[s.toFire[0]].id && s1 == Next(s, Complete(true, now)) && s2 == Run(s1, steps)
    ensures s1.log <= s2.log && forall i :: |s1.log| <= i < |s2.log| ==> s2.log[i].record.id != id
  {
    SuccessfulTriggerQuietsIff(s, now);
    id := s.objects[s.toFire[0]].id;
    s1 := Next(s, Complete(true, now));
    s2 := Run(s1, steps);
    QuietUntilArmed(s1, steps, id);
  }

  ghost predicate CalledSince<Ref>(s: State<Ref>, s': State<Ref>, r: Ref) {
    exists i :: |s.log| <= i < |s'.log| && s'.log[i].switch == r
  }

  lemma {:induction false} LogGrows<Ref>(s: State<Ref>, steps: seq<Step<Ref>>)
    requires WellFormed(s) && Allowed(s, steps)
    ensures s.log <= Run(s, steps).log
    decreases |steps|
  {
    if steps != [] {
      StepKeepsWellFormed(s, steps[0]);
      LogGrows(Next(s, steps[0]), steps[1..]);
    }
  }
}
