/** How long disarming a switch of the dead man's switch manager lasts. */
module DeadmanDisarm {
  import opened DeadmanSwitches
  import opened DeadmanRuns

  /** With no switch of the id in flight, disarming makes it quiet. */
  lemma DisarmQuiets<Ref>(s: State<Ref>, id: string, now: int)
    requires WellFormed(s) && s.clock <= now && id in s.switches && !InFlight(s, id)
    ensures WellFormed(Next(s, Disarm(id, now))) && Quiet(Next(s, Disarm(id, now)), id)
    ensures IsCancelled(Next(s, Disarm(id, now)), id)
  {
    StepKeepsWellFormed(s, Disarm(id, now));
  }

  /** An id that was disarmed with no switch of it in flight triggers no more until it is armed again. */
  lemma DisarmLasts<Ref>(s: State<Ref>, id: string, now: int, steps: seq<Step<Ref>>)
      returns (s1: State<Ref>, s2: State<Ref>)
    requires WellFormed(s) && s.clock <= now && id in s.switches && !InFlight(s, id)
    requires WellFormed(Next(s, Disarm(id, now))) && Allowed(Next(s, Disarm(id, now)), steps)
    requires Throughout(NeverArming(id), Next(s, Disarm(id, now)), steps)
    ensures s1 == Next(s, Disarm(id, now)) && s2 == Run(s1, steps)
    ensures !HasRestart(steps) ==> IsCancelled(s2, id)
    ensures s1.log <= s2.log && forall i :: |s1.log| <= i < |s2.log| ==> s2.log[i].record.id != id
  {
    DisarmQuiets(s, id, now);
    s1 := Next(s, Disarm(id, now));
    s2 := Run(s1, steps);
    QuietUntilArmed(s1, steps, id);
  }

  // A switch that is not in flight itself.

  /** The cancelled switch of this id is not in flight; one that it replaced may be. */
  ghost predicate CancelledAtRest<Ref>(s: State<Ref>, id: string, r: Ref)
    requires WellFormed(s)
  {
    id in s.switches && s.switches[id] == r && s.objects[r].status == Cancelled && r !in s.toFire
  }

  lemma UpdateKeepsAtRest<Ref>(s: State<Ref>, step: Step<Ref>, id: string, r: Ref)
    requires WellFormed(s) && Enabled(s, step) && CancelledAtRest(s, id, r) && Meets(NeverArming(id), s, step)
    requires step.Arm? || step.CheckIn? || step.Disarm?
    ensures WellFormed(Next(s, step)) && CancelledAtRest(Next(s, step), id, r) && !CalledSince(s, Next(s, step), r)
  {
    StepKeepsWellFormed(s, step);
  }

  lemma StepKeepsAtRest<Ref>(s: State<Ref>, step: Step<Ref>, id: string, r: Ref)
    requires WellFormed(s) && Enabled(s, step) && CancelledAtRest(s, id, r) && Meets(NeverArming(id), s, step)
    requires !step.Restart?
    ensures WellFormed(Next(s, step)) && CancelledAtRest(Next(s, step), id, r) && !CalledSince(s, Next(s, step), r)
  {
    if step.Collect? || step.Complete? {
      StepKeepsWellFormed(s, step);
    } else {
      UpdateKeepsAtRest(s, step, id, r);
    }
  }

  lemma {:induction false} RunKeepsAtRest<Ref>(s: State<Ref>, steps: seq<Step<Ref>>, id: string, r: Ref)
    requires WellFormed(s) && Allowed(s, steps) && CancelledAtRest(s, id, r) && Throughout(NeverArming(id), s, steps)
    requires !HasRestart(steps)
    ensures CancelledAtRest(Run(s, steps), id, r) && !CalledSince(s, Run(s, steps), r)
    decreases |steps|
  {
    if steps != [] {
      StepKeepsAtRest(s, steps[0], id, r);
      var s1 := Next(s, steps[0]);
      RunKeepsAtRest(s1, steps[1..], id, r);
      LogGrows(s1, steps[1..]);
      CalledInParts(s, s1, Run(s, steps), r);
    }
  }

  lemma CalledInParts<Ref>(s: State<Ref>, s1: State<Ref>, s2: State<Ref>, r: Ref)
    requires s1.log <= s2.log && |s.log| <= |s1.log|
    ensures CalledSince(s, s2, r) <==> CalledSince(s, s1, r) || CalledSince(s1, s2, r)
  {
    if i :| |s.log| <= i < |s1.log| && s1.log[i].switch == r {
      assert s2.log[i].switch == r;
    }
  }

  /**
   * A switch that is disarmed while it is not in flight itself stays cancelled and is not triggered in any run
   * without a restart in which its id is not armed again.
   */
  lemma DisarmAtRest<Ref>(s: State<Ref>, id: string, now: int, steps: seq<Step<Ref>>)
      returns (s1: State<Ref>, s2: State<Ref>)
    requires WellFormed(s) && s.clock <= now && id in s.switches && s.switches[id] !in s.toFire
    requires WellFormed(Next(s, Disarm(id, now))) && Allowed(Next(s, Disarm(id, now)), steps)
    requires Throughout(NeverArming(id), Next(s, Disarm(id, now)), steps) && !HasRestart(steps)
    ensures s1 == Next(s, Disarm(id, now)) && s2 == Run(s1, steps)
    ensures IsCancelled(s2, id) && s2.switches[id] == s.switches[id] && !CalledSince(s1, s2, s.switches[id])
  {
    s1 := Next(s, Disarm(id, now));
    s2 := Run(s1, steps);
    RunKeepsAtRest(s1, steps, id, s.switches[id]);
  }

  // An id that is in flight, through its switch or through one that was replaced.

  /**
   * The id is cancelled in memory, where its switch is r, and f is the object of the id that is in flight: r
   * itself, or an older one of the given status.
   */
  ghost predicate DisarmedWith<Ref>(s: State<Ref>, id: string, r: Ref, f: Ref, status: Status)
    requires WellFormed(s)
  {
    && id in s.switches && s.switches[id] == r && s.objects[r].status == Cancelled
    && f in s.toFire && s.objects[f].id == id && s.objects[f].status == status
    && (f == r || (id in s.disk && s.disk[id].status != Armed))
  }

  lemma DisarmStarts<Ref>(s: State<Ref>, id: string, now: int, f: Ref)
    requires WellFormed(s) && s.clock <= now && id in s.switches && f in s.toFire && s.objects[f].id == id
    ensures var s1 := Next(s, Disarm(id, now));
            var status := if f == s.switches[id] then Cancelled else s.objects[f].status;
            WellFormed(s1) && s1.toFire == s.toFire && DisarmedWith(s1, id, s.switches[id], f, status)
  {
    StepKeepsWellFormed(s, Disarm(id, now));
  }

  lemma ArmKeepsDisarmed<Ref>(s: State<Ref>, step: Step<Ref>, id: string, r: Ref, f: Ref, status: Status)
    requires WellFormed(s) && Enabled(s, step) && DisarmedWith(s, id, r, f, status) && Meets(NeverArming(id), s, step)
    requires step.Arm?
    ensures WellFormed(Next(s, step)) && DisarmedWith(Next(s, step), id, r, f, status)
  {
    StepKeepsWellFormed(s, step);
  }

  lemma UpdateKeepsDisarmed<Ref>(s: State<Ref>, step: Step<Ref>, id: string, r: Ref, f: Ref, status: Status)
    requires WellFormed(s) && Enabled(s, step) && DisarmedWith(s, id, r, f, status)
    requires step.CheckIn? || step.Disarm?
    ensures WellFormed(Next(s, step)) && DisarmedWith(Next(s, step), id, r, f, status)
  {
    StepKeepsWellFormed(s, step);
  }

  lemma CompleteKeepsDisarmed<Ref>(s: State<Ref>, step: Step<Ref>, id: string, r: Ref, f: Ref, status: Status)
    requires WellFormed(s) && Enabled(s, step) && DisarmedWith(s, id, r, f, status) && step.Complete?
    requires s.toFire[0] != f
    ensures WellFormed(Next(s, step)) && DisarmedWith(Next(s, step), id, r, f, status)
  {
    StepKeepsWellFormed(s, step);
    assert s.objects[s.toFire[0]].id != id;
  }

  /** Until the trigger in flight returns, the disarmed id stays as it is. */
  lemma StepKeepsDisarmed<Ref>(s: State<Ref>, step: Step<Ref>, id: string, r: Ref, f: Ref, status: Status)
    requires WellFormed(s) && Enabled(s, step) && DisarmedWith(s, id, r, f, status) && Meets(NeverArming(id), s, step)
    requires !step.Restart?
    ensures WellFormed(Next(s, step))
    ensures CalledSince(s, Next(s, step), f) || DisarmedWith(Next(s, step), id, r, f, status)
  {
    StepKeepsWellFormed(s, step);
    if step.Complete? {
      if s.toFire[0] == f {
        assert Next(s, step).log[|s.log|].switch == f;
      } else {
        CompleteKeepsDisarmed(s, step, id, r, f, status);
      }
    } else if step.Arm? {
      ArmKeepsDisarmed(s, step, id, r, f, status);
    } else {
      UpdateKeepsDisarmed(s, step, id, r, f, status);
    }
  }

  lemma {:induction false} RunKeepsDisarmed<Ref>(
      s: State<Ref>, steps: seq<Step<Ref>>, id: string, r: Ref, f: Ref, status: Status)
    requires WellFormed(s) && Allowed(s, steps) && DisarmedWith(s, id, r, f, status)
    requires Throughout(NeverArming(id), s, steps) && !HasRestart(steps) && !CalledSince(s, Run(s, steps), f)
    ensures DisarmedWith(Run(s, steps), id, r, f, status)
    decreases |steps|
  {
    if steps != [] {
      StepKeepsDisarmed(s, steps[0], id, r, f, status);
      var s1 := Next(s, steps[0]);
      LogGrows(s1, steps[1..]);
      LogGrowsByStep(s, steps[0]);
      CalledInParts(s, s1, Run(s, steps), f);
      RunKeepsDisarmed(s1, steps[1..], id, r, f, status);
    }
  }

  lemma LogGrowsByStep<Ref>(s: State<Ref>, step: Step<Ref>)
    requires WellFormed(s) && Enabled(s, step)
    ensures s.log <= Next(s, step).log
  {
  }

  /** The end of the trigger in flight leaves the id disarmed for good. */
  ghost predicate Settles<Ref>(r: Ref, f: Ref, status: Status, ok: bool) {
    if f == r then ok else !(ok && status == Armed)
  }

  /**
   * When the trigger in flight ends, the id is quiet exactly if that settles it: the trigger of the switch itself
   * must succeed, and that of an older one must not succeed while that one is armed again. The switch in
   * memory stays cancelled unless its own trigger failed.
   */
  lemma DisarmedEndIff<Ref>(s: State<Ref>, id: string, r: Ref, f: Ref, status: Status, ok: bool, now: int)
    requires WellFormed(s) && s.clock <= now && DisarmedWith(s, id, r, f, status) && s.toFire[0] == f
    ensures var s' := Next(s, Complete(ok, now));
            && WellFormed(s') && (Quiet(s', id) <==> Settles(r, f, status, ok))
            && (IsCancelled(s', id) <==> f != r || ok)
  {
    StepKeepsWellFormed(s, Complete(ok, now));
    assert s.toFire[0] in s.toFire;
  }

  /**
   * The id was disarmed while f was in flight, in whatever place of the list. It stays cancelled in every run up to
   * the return of that trigger, and is quiet from then on, until it is armed again, exactly if the trigger settles it.
   */
  lemma DisarmInFlight<Ref>(
      s: State<Ref>, id: string, r: Ref, f: Ref, status: Status,
      steps: seq<Step<Ref>>, ok: bool, now: int, rest: seq<Step<Ref>>)
      returns (s1: State<Ref>, s2: State<Ref>)
    requires WellFormed(s) && DisarmedWith(s, id, r, f, status)
    requires Allowed(s, steps) && Throughout(NeverArming(id), s, steps) && !HasRestart(steps)
    requires !CalledSince(s, Run(s, steps), f)
    requires Run(s, steps).clock <= now && Run(s, steps).toFire != [] && Run(s, steps).toFire[0] == f
    requires var after := Next(Run(s, steps), Complete(ok, now));
             WellFormed(after) && Allowed(after, rest) && Throughout(NeverArming(id), after, rest)
    ensures s1 == Run(s, steps) && IsCancelled(s1, id)
    ensures s2 == Next(s1, Complete(ok, now)) && (IsCancelled(s2, id) <==> f != r || ok)
    ensures Quiet(s2, id) <==> Settles(r, f, status, ok)
    ensures Settles(r, f, status, ok) ==> StaysQuiet(s2, Run(s2, rest), id, HasRestart(rest))
  {
    s1 := Run(s, steps);
    s2 := Next(s1, Complete(ok, now));
    RunKeepsDisarmed(s, steps, id, r, f, status);
    DisarmedEndIff(s1, id, r, f, status, ok, now);
    if Settles(r, f, status, ok) {
      QuietUntilArmed(s2, rest, id);
    }
  }

  /** A restart makes an id quiet exactly if its file is not armed. */
  lemma RestartQuietsIff<Ref>(s: State<Ref>, refs: map<string, Ref>, now: int, id: string)
    requires WellFormed(s) && s.clock <= now && FreshRefs(s.disk, refs)
    ensures var s' := Next(s, Restart(refs, now)); WellFormed(s') && (Quiet(s', id) <==> !Reloads(s.disk, id))
  {
    StepKeepsWellFormed(s, Restart(refs, now));
  }
}
