/** That overdue switches of the dead man's switch manager do fire, with what they were armed with. */
module DeadmanFiring {
  import opened DeadmanSwitches
  import opened DeadmanRuns

  // The refusals and the effects of the calls, field by field.

  lemma ArmRefusals(f: Record)
    ensures ArmResult(f).Success? <==> f.id != "" && (f.deadline != 0 || f.interval != 0) && f.recipients != []
    ensures f.id == "" ==> ArmResult(f) == Failure(MissingId)
    ensures f.id != "" && f.deadline == 0 == f.interval ==> ArmResult(f) == Failure(MissingDeadline)
    ensures f.id != "" && (f.deadline != 0 || f.interval != 0) && f.recipients == [] ==>
              ArmResult(f) == Failure(MissingRecipients)
  {
  }

  /** Arming sets four fields and keeps the others; an explicit deadline is kept, and any other computed. */
  lemma ArmSets<Ref>(s: State<Ref>, r: Ref, f: Record, now: int)
    requires WellFormed(s) && Enabled(s, Arm(r, f, now)) && ArmResult(f).Success?
    ensures var s' := Next(s, Arm(r, f, now));
            && f.id in s'.switches && s'.switches[f.id] == r && r in s'.objects
            && s'.objects[r] == Record(f.id, if f.deadline != 0 then f.deadline else now + f.interval, f.interval, now,
                                       Armed, f.recipients, f.message, f.grace, now)
            && f.id in s'.disk && s'.disk[f.id] == s'.objects[r]
            && (forall id :: id in s.switches && id != f.id ==> id in s'.switches && s'.switches[id] == s.switches[id])
            && (forall o :: o in s.objects && o != r ==> o in s'.objects && s'.objects[o] == s.objects[o])
            && (forall id :: id in s.disk && id != f.id ==> id in s'.disk && s'.disk[id] == s.disk[id])
            && s'.toFire == s.toFire && s'.log == s.log
  {
  }

  /** A refused call changes nothing but the time. */
  ghost predicate SameButTime<Ref>(s: State<Ref>, s': State<Ref>) {
    && s'.switches == s.switches && s'.objects == s.objects && s'.disk == s.disk
    && s'.toFire == s.toFire && s'.log == s.log
  }

  /** Only an armed switch can be checked in; that sets the last check-in and, with an interval, the deadline. */
  lemma CheckInSets<Ref>(s: State<Ref>, id: string, now: int)
    requires WellFormed(s) && s.clock <= now
    ensures id !in s.switches ==> CheckInResult(s, id) == Failure(NotFound)
    ensures id in s.switches && s.objects[s.switches[id]].status != Armed ==>
              CheckInResult(s, id) == Failure(NotArmed(s.objects[s.switches[id]].status))
    ensures CheckInResult(s, id).Success? <==> id in s.switches && s.objects[s.switches[id]].status == Armed
    ensures CheckInResult(s, id).Failure? ==> SameButTime(s, Next(s, CheckIn(id, now)))
    ensures CheckInResult(s, id).Success? ==>
              var s', r := Next(s, CheckIn(id, now)), s.switches[id];
              var f := s.objects[r];
              var deadline := if f.interval > 0 then now + f.interval else f.deadline;
              && s'.objects == s.objects[r := Record(id, deadline, f.interval, now, Armed, f.recipients, f.message,
                                                     f.grace, f.createdAt)]
              && s'.disk == s.disk[id := s'.objects[r]]
              && s'.switches == s.switches && s'.toFire == s.toFire && s'.log == s.log
  {
  }

  lemma DisarmSets<Ref>(s: State<Ref>, id: string, now: int)
    requires WellFormed(s) && s.clock <= now
    ensures DisarmResult(s, id) == if id in s.switches then Success else Failure(NotFound)
    ensures id !in s.switches ==> SameButTime(s, Next(s, Disarm(id, now)))
    ensures id in s.switches ==>
              var s', r := Next(s, Disarm(id, now)), s.switches[id];
              && s'.objects == s.objects[r := s.objects[r].(status := Cancelled)]
              && s'.disk == s.disk[id := s'.objects[r]]
              && s'.switches == s.switches && s'.toFire == s.toFire && s'.log == s.log
  {
  }

  // Overdue switches fire.

  /** The tick lists exactly the armed switches that are past deadline plus grace, and marks them as fired. */
  lemma CollectFiresIff<Ref>(s: State<Ref>, order: seq<Ref>, now: int, id: string)
    requires WellFormed(s) && Enabled(s, Collect(order, now)) && id in s.switches
    ensures var s', r := Next(s, Collect(order, now)), s.switches[id];
            var f := s.objects[r];
            && WellFormed(s') && s'.switches == s.switches
            && (r in s'.toFire <==> f.status == Armed && now > f.deadline + f.grace)
            && s'.objects[r] == if r in s'.toFire then f.(status := Fired) else f
  {
    StepKeepsWellFormed(s, Collect(order, now));
  }

  /** The switch of this id is armed, with these fields, and not in flight. */
  ghost predicate Waiting<Ref>(s: State<Ref>, id: string, r: Ref, f: Record)
    requires WellFormed(s)
  {
    id in s.switches && s.switches[id] == r && s.objects[r] == f && f.status == Armed && r !in s.toFire
  }

  /** The step leaves the id alone: no call names it, and a tick comes before its time. */
  ghost predicate LeavesAlone<Ref>(step: Step<Ref>, id: string, f: Record) {
    match step
    case Arm(_, fields, _) => fields.id != id
    case CheckIn(other, _) => other != id
    case Disarm(other, _) => other != id
    case Collect(_, now) => now <= f.deadline + f.grace
    case Complete(_, _) => true
    case Restart(_, _) => false
  }

  lemma UpdateKeepsWaiting<Ref>(s: State<Ref>, step: Step<Ref>, id: string, r: Ref, f: Record)
    requires WellFormed(s) && Enabled(s, step) && Waiting(s, id, r, f) && LeavesAlone(step, id, f)
    requires step.Arm? || step.CheckIn? || step.Disarm?
    ensures WellFormed(Next(s, step)) && Waiting(Next(s, step), id, r, f)
  {
    StepKeepsWellFormed(s, step);
  }

  lemma StepKeepsWaiting<Ref>(s: State<Ref>, step: Step<Ref>, id: string, r: Ref, f: Record)
    requires WellFormed(s) && Enabled(s, step) && Waiting(s, id, r, f) && LeavesAlone(step, id, f)
    ensures WellFormed(Next(s, step)) && Waiting(Next(s, step), id, r, f)
  {
    match step
    case Collect(order, now) => CollectFiresIff(s, order, now, id);
    case Complete(_, _) => StepKeepsWellFormed(s, step);
    case _ => UpdateKeepsWaiting(s, step, id, r, f);
  }

  lemma {:induction false} RunKeepsWaiting<Ref>(s: State<Ref>, steps: seq<Step<Ref>>, id: string, r: Ref, f: Record)
    requires WellFormed(s) && Allowed(s, steps) && Waiting(s, id, r, f)
    requires forall i :: 0 <= i < |steps| ==> LeavesAlone(steps[i], id, f)
    ensures Waiting(Run(s, steps), id, r, f)
    decreases |steps|
  {
    if steps != [] {
      assert LeavesAlone(steps[0], id, f);
      StepKeepsWaiting(s, steps[0], id, r, f);
      RunKeepsWaiting(Next(s, steps[0]), steps[1..], id, r, f);
    }
  }

  /**
   * An armed switch that is left alone is in flight after the first tick that comes strictly after deadline plus
   * grace, and only then.
   */
  lemma OverdueFires<Ref>(
      s: State<Ref>, id: string, r: Ref, f: Record, steps: seq<Step<Ref>>, order: seq<Ref>, now: int)
      returns (s1: State<Ref>, s2: State<Ref>)
    requires WellFormed(s) && Waiting(s, id, r, f)
    requires Allowed(s, steps) && forall i :: 0 <= i < |steps| ==> LeavesAlone(steps[i], id, f)
    requires Enabled(Run(s, steps), Collect(order, now))
    ensures s1 == Run(s, steps) && s2 == Next(s1, Collect(order, now))
    ensures r in s2.toFire <==> now > f.deadline + f.grace
    ensures r in s2.toFire ==> r in s2.objects && s2.objects[r] == f.(status := Fired)
  {
    s1 := Run(s, steps);
    s2 := Next(s1, Collect(order, now));
    RunKeepsWaiting(s, steps, id, r, f);
    CollectFiresIff(s1, order, now, id);
  }

  lemma StepKeepsInFlight<Ref>(s: State<Ref>, step: Step<Ref>, r: Ref)
    requires WellFormed(s) && Enabled(s, step) && r in s.toFire && !step.Restart?
    ensures s.log <= Next(s, step).log && (r in Next(s, step).toFire || CalledSince(s, Next(s, step), r))
  {
    if step.Complete? && s.toFire[0] == r {
      assert Next(s, step).log[|s.log|].switch == r;
    }
  }

  /** Without a restart, a switch in flight leaves the list only by having its trigger called. */
  lemma {:induction false} InFlightIsCalled<Ref>(s: State<Ref>, steps: seq<Step<Ref>>, r: Ref)
    requires WellFormed(s) && Allowed(s, steps) && r in s.toFire && !HasRestart(steps)
    ensures r in Run(s, steps).toFire || CalledSince(s, Run(s, steps), r)
    decreases |steps|
  {
    if steps != [] {
      StepKeepsWellFormed(s, steps[0]);
      StepKeepsInFlight(s, steps[0], r);
      var s1, s2 := Next(s, steps[0]), Run(s, steps);
      LogGrows(s1, steps[1..]);
      if r in s1.toFire {
        InFlightIsCalled(s1, steps[1..], r);
      } else {
        var i :| |s.log| <= i < |s1.log| && s1.log[i].switch == r;
        assert s2.log[i].switch == r;
      }
    }
  }

  // What the trigger sees.

  /** What the record keeps of the fields it was armed with at this time; the deadline, if it is fixed. */
  predicate AsArmed(r: Record, f: Record, armedAt: int, fixed: bool) {
    && r.id == f.id && r.interval == f.interval && r.recipients == f.recipients && r.message == f.message
    && r.grace == f.grace && r.createdAt == armedAt && (fixed ==> r.deadline == f.deadline)
  }

  ghost predicate HoldsArmed<Ref>(s: State<Ref>, r: Ref, f: Record, armedAt: int, fixed: bool) {
    r in s.objects && AsArmed(s.objects[r], f, armedAt, fixed)
  }

  /** The trigger calls of the object since the first state saw what it was armed with. */
  ghost predicate CallsSaw<Ref>(s: State<Ref>, s': State<Ref>, r: Ref, f: Record, armedAt: int, fixed: bool) {
    && s.log <= s'.log
    && forall i :: |s.log| <= i < |s'.log| && s'.log[i].switch == r ==> AsArmed(s'.log[i].record, f, armedAt, fixed)
  }

  /** The step does not arm the object, and does not compute a new deadline for it if that is fixed. */
  ghost predicate KeepsFields<Ref>(step: Step<Ref>, r: Ref, f: Record, fixed: bool) {
    && (step.Arm? ==> step.switch != r) && !step.Restart?
    && (fixed && step.CheckIn? && step.id == f.id ==> f.interval <= 0)
  }

  lemma UpdateKeepsFields<Ref>(s: State<Ref>, step: Step<Ref>, r: Ref, f: Record, armedAt: int, fixed: bool)
    requires WellFormed(s) && Enabled(s, step) && HoldsArmed(s, r, f, armedAt, fixed) && KeepsFields(step, r, f, fixed)
    requires step.Arm? || step.CheckIn? || step.Disarm?
    ensures HoldsArmed(Next(s, step), r, f, armedAt, fixed) && Next(s, step).log == s.log
  {
    if step.CheckIn? && CheckInResult(s, step.id).Success? && s.switches[step.id] == r {
      assert s.objects[r].id == step.id;
    }
  }

  lemma StepKeepsFields<Ref>(s: State<Ref>, step: Step<Ref>, r: Ref, f: Record, armedAt: int, fixed: bool)
    requires WellFormed(s) && Enabled(s, step) && HoldsArmed(s, r, f, armedAt, fixed) && KeepsFields(step, r, f, fixed)
    ensures HoldsArmed(Next(s, step), r, f, armedAt, fixed) && CallsSaw(s, Next(s, step), r, f, armedAt, fixed)
  {
    if step.Arm? || step.CheckIn? || step.Disarm? {
      UpdateKeepsFields(s, step, r, f, armedAt, fixed);
    }
  }

  lemma {:induction false} RunKeepsFields<Ref>(
      s: State<Ref>, steps: seq<Step<Ref>>, r: Ref, f: Record, armedAt: int, fixed: bool)
    requires WellFormed(s) && Allowed(s, steps) && HoldsArmed(s, r, f, armedAt, fixed)
    requires forall i :: 0 <= i < |steps| ==> KeepsFields(steps[i], r, f, fixed)
    ensures HoldsArmed(Run(s, steps), r, f, armedAt, fixed) && CallsSaw(s, Run(s, steps), r, f, armedAt, fixed)
    decreases |steps|
  {
    if steps != [] {
      assert KeepsFields(steps[0], r, f, fixed);
      StepKeepsWellFormed(s, steps[0]);
      StepKeepsFields(s, steps[0], r, f, armedAt, fixed);
      var s1 := Next(s, steps[0]);
      RunKeepsFields(s1, steps[1..], r, f, armedAt, fixed);
      CallsSawInParts(s, s1, Run(s, steps), r, f, armedAt, fixed);
    }
  }

  lemma CallsSawInParts<Ref>(
      s: State<Ref>, s1: State<Ref>, s2: State<Ref>, r: Ref, f: Record, armedAt: int, fixed: bool)
    requires CallsSaw(s, s1, r, f, armedAt, fixed) && CallsSaw(s1, s2, r, f, armedAt, fixed)
    ensures CallsSaw(s, s2, r, f, armedAt, fixed)
  {
    forall i | |s.log| <= i < |s2.log| && s2.log[i].switch == r
      ensures AsArmed(s2.log[i].record, f, armedAt, fixed)
    {
      assert i < |s1.log| ==> s2.log[i] == s1.log[i];
    }
  }

  /**
   * Every trigger call of an armed object, until it is armed again, sees the id, recipients, message, interval and
   * grace period it was armed with; and its explicit deadline, if a check-in does not compute another.
   */
  lemma TriggerSeesArmed<Ref>(s: State<Ref>, r: Ref, f: Record, now: int, steps: seq<Step<Ref>>, fixed: bool)
      returns (s1: State<Ref>, s2: State<Ref>)
    requires WellFormed(s) && Enabled(s, Arm(r, f, now)) && ArmResult(f).Success? && (fixed ==> f.deadline != 0)
    requires WellFormed(Next(s, Arm(r, f, now))) && Allowed(Next(s, Arm(r, f, now)), steps)
    requires forall i :: 0 <= i < |steps| ==> KeepsFields(steps[i], r, f, fixed)
    ensures s1 == Next(s, Arm(r, f, now)) && s2 == Run(s1, steps) && |s1.log| <= |s2.log|
    ensures forall i :: |s1.log| <= i < |s2.log| && s2.log[i].switch == r ==>
              var e := s2.log[i].record;
              && e.id == f.id && e.recipients == f.recipients && e.message == f.message && e.interval == f.interval
              && e.grace == f.grace && e.createdAt == now && (fixed ==> e.deadline == f.deadline)
  {
    s1 := Next(s, Arm(r, f, now));
    s2 := Run(s1, steps);
    RunKeepsFields(s1, steps, r, f, now, fixed);
  }

  /** Whatever is in memory, on disk or was triggered has an id and a recipient. */
  ghost predicate Sendable<Ref>(s: State<Ref>) {
    && (forall r :: r in s.objects ==> s.objects[r].id != "" && s.objects[r].recipients != [])
    && (forall id :: id in s.disk ==> s.disk[id].id != "" && s.disk[id].recipients != [])
    && (forall i :: 0 <= i < |s.log| ==> s.log[i].record.id != "" && s.log[i].record.recipients != [])
  }

  lemma ArmKeepsSendable<Ref>(s: State<Ref>, step: Step<Ref>)
    requires WellFormed(s) && Enabled(s, step) && Sendable(s) && step.Arm?
    ensures Sendable(Next(s, step))
  {
  }

  lemma UpdateKeepsSendable<Ref>(s: State<Ref>, step: Step<Ref>)
    requires WellFormed(s) && Enabled(s, step) && Sendable(s) && (step.CheckIn? || step.Disarm?)
    ensures Sendable(Next(s, step))
  {
  }

  lemma CompleteKeepsSendable<Ref>(s: State<Ref>, step: Step<Ref>)
    requires WellFormed(s) && Enabled(s, step) && Sendable(s) && step.Complete?
    ensures Sendable(Next(s, step))
  {
  }

  lemma StepKeepsSendable<Ref>(s: State<Ref>, step: Step<Ref>)
    requires WellFormed(s) && Enabled(s, step) && Sendable(s)
    ensures Sendable(Next(s, step))
  {
    match step
    case Arm(_, _, _) => ArmKeepsSendable(s, step);
    case Complete(_, _) => CompleteKeepsSendable(s, step);
    case CheckIn(_, _) => UpdateKeepsSendable(s, step);
    case Disarm(_, _) => UpdateKeepsSendable(s, step);
    case _ =>
  }

  /** In every run each trigger is called with an id and at least one recipient. */
  lemma {:induction false} RunKeepsSendable<Ref>(s: State<Ref>, steps: seq<Step<Ref>>)
    requires WellFormed(s) && Allowed(s, steps) && Sendable(s)
    ensures Sendable(Run(s, steps))
    decreases |steps|
  {
    if steps != [] {
      StepKeepsWellFormed(s, steps[0]);
      StepKeepsSendable(s, steps[0]);
      RunKeepsSendable(Next(s, steps[0]), steps[1..]);
    }
  }
}
