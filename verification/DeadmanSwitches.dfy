/**
 * The dead man's switch manager as a state machine. Memory holds switch objects, which callers and the
 * tick in flight point at; the disk holds records. Each step is one critical section.
 */
module DeadmanSwitches {
  datatype Status = Armed | Disarmed | Fired | Cancelled

  /** A time of 0 is the zero time, which stands for "not given". */
  datatype Record = Record(
    id: string, deadline: int, interval: int, lastCheckIn: int, status: Status,
    recipients: seq<string>, message: string, grace: int, createdAt: int)

  /** One call of the trigger: the switch as the callback saw it. */
  datatype Trigger<Ref> = Trigger(switch: Ref, record: Record, time: int, ok: bool, derived: bool)

  /**
   * derived and derivedOnDisk are history: the objects whose last arming computed the deadline from a
   * positive interval, and the records that were saved from such objects. log lists the trigger calls.
   */
  datatype State<Ref> = State(
    switches: map<string, Ref>, objects: map<Ref, Record>, disk: map<string, Record>, toFire: seq<Ref>,
    clock: int, log: seq<Trigger<Ref>>, derived: set<Ref>, derivedOnDisk: set<string>)

  datatype Step<Ref> =
    | Arm(switch: Ref, fields: Record, now: int)
    | CheckIn(id: string, now: int)
    | Disarm(id: string, now: int)
    | Collect(order: seq<Ref>, now: int)
    | Complete(ok: bool, now: int)
    | Restart(refs: map<string, Ref>, now: int)

  datatype SwitchError = MissingId | MissingDeadline | MissingRecipients | NotFound | NotArmed(status: Status)

  datatype Result = Success | Failure(error: SwitchError)

  predicate Due(r: Record, now: int) {
    r.status == Armed && now > r.deadline + r.grace
  }

  function ArmResult(fields: Record): Result {
    if fields.id == "" then Failure(MissingId)
    else if fields.deadline == 0 && fields.interval == 0 then Failure(MissingDeadline)
    else if fields.recipients == [] then Failure(MissingRecipients)
    else Success
  }

  function ArmedRecord(fields: Record, now: int): Record {
    fields.(status := Armed, createdAt := now, lastCheckIn := now,
            deadline := if fields.deadline == 0 then now + fields.interval else fields.deadline)
  }

  function CheckInResult<Ref>(s: State<Ref>, id: string): Result
    requires WellFormed(s)
  {
    if id !in s.switches then Failure(NotFound)
    else
      var status := s.objects[s.switches[id]].status;
      if status != Armed then Failure(NotArmed(status)) else Success
  }

  function CheckedIn(r: Record, now: int): Record {
    r.(lastCheckIn := now, deadline := if r.interval > 0 then now + r.interval else r.deadline)
  }

  function DisarmResult<Ref>(s: State<Ref>, id: string): Result {
    if id !in s.switches then Failure(NotFound) else Success
  }

  ghost predicate WellFormed<Ref>(s: State<Ref>) {
    && (forall id :: id in s.switches ==> s.switches[id] in s.objects && s.objects[s.switches[id]].id == id)
    && (forall id :: id in s.disk ==> s.disk[id].id == id)
    && (forall r :: r in s.toFire ==> r in s.objects && s.objects[r].id in s.switches)
    && (forall i, j :: 0 <= i < j < |s.toFire| ==> s.objects[s.toFire[i]].id != s.objects[s.toFire[j]].id)
    && s.derived <= s.objects.Keys
  }

  /** Changes the object's fields, and writes its record to its file. */
  function Write<Ref>(s: State<Ref>, r: Ref, record: Record): State<Ref> {
    s.(objects := s.objects[r := record],
       disk := s.disk[record.id := record],
       derivedOnDisk := if r in s.derived then s.derivedOnDisk + {record.id} else s.derivedOnDisk - {record.id})
  }

  /** Puts the object into memory under its id. */
  function Register<Ref>(s: State<Ref>, r: Ref, fields: Record): State<Ref> {
    s.(switches := s.switches[fields.id := r],
       derived := if fields.deadline == 0 && fields.interval > 0 then s.derived + {r} else s.derived - {r})
  }

  ghost predicate DueList<Ref>(s: State<Ref>, order: seq<Ref>, now: int)
    requires WellFormed(s)
  {
    && (forall i, j :: 0 <= i < j < |order| ==> order[i] != order[j])
    && (forall r :: r in order ==> r in s.switches.Values && Due(s.objects[r], now))
    && (forall id :: id in s.switches && Due(s.objects[s.switches[id]], now) ==> s.switches[id] in order)
  }

  /** The ids that load puts back into memory. */
  ghost predicate Reloads(disk: map<string, Record>, id: string) {
    id in disk && disk[id].status == Armed
  }

  ghost predicate FreshRefs<Ref>(disk: map<string, Record>, refs: map<string, Ref>) {
    && (forall id :: id in refs <==> Reloads(disk, id))
    && (forall a, b :: a in refs && b in refs && refs[a] == refs[b] ==> a == b)
  }

  ghost predicate Enabled<Ref>(s: State<Ref>, step: Step<Ref>)
    requires WellFormed(s)
  {
    && s.clock <= step.now
    && match step
       case Arm(r, fields, _) => r in s.objects ==> fields == s.objects[r]
       case Collect(order, now) => s.toFire == [] && DueList(s, order, now)
       case Complete(_, _) => s.toFire != []
       case Restart(refs, _) => FreshRefs(s.disk, refs)
       case _ => true
  }

  /** The object that a reloaded id points at. */
  ghost function IdOf<Ref>(refs: map<string, Ref>, r: Ref): string
    requires r in refs.Values
  {
    var id :| id in refs && refs[id] == r;
    id
  }

  ghost function Restarted<Ref>(disk: map<string, Record>, log: seq<Trigger<Ref>>, derivedOnDisk: set<string>,
                                refs: map<string, Ref>, now: int): State<Ref>
    requires FreshRefs(disk, refs)
  {
    State(refs, map r | r in refs.Values :: disk[IdOf(refs, r)], disk, [], now, log,
          set id | id in derivedOnDisk && id in refs :: refs[id], derivedOnDisk)
  }

  ghost function Collected<Ref>(s: State<Ref>, order: seq<Ref>): State<Ref> {
    s.(objects := map r | r in s.objects :: if r in order then s.objects[r].(status := Fired) else s.objects[r],
       toFire := order)
  }

  function Completed<Ref>(s: State<Ref>, ok: bool, now: int): State<Ref>
    requires s.toFire != [] && s.toFire[0] in s.objects
  {
    var r := s.toFire[0];
    var s1 := s.(toFire := s.toFire[1..], log := s.log + [Trigger(r, s.objects[r], now, ok, r in s.derived)]);
    if ok then Write(s1, r, s.objects[r]) else s1.(objects := s.objects[r := s.objects[r].(status := Armed)])
  }

  ghost function Next<Ref>(s: State<Ref>, step: Step<Ref>): State<Ref>
    requires WellFormed(s) && Enabled(s, step)
  {
    var s0 := s.(clock := step.now);
    match step
    case Arm(r, fields, now) =>
      if ArmResult(fields).Failure? then s0 else Write(Register(s0, r, fields), r, ArmedRecord(fields, now))
    case CheckIn(id, now) =>
      if CheckInResult(s, id).Failure? then s0 else Write(s0, s.switches[id], CheckedIn(s.objects[s.switches[id]], now))
    case Disarm(id, _) =>
      if DisarmResult(s, id).Failure? then s0
      else Write(s0, s.switches[id], s.objects[s.switches[id]].(status := Cancelled))
    case Collect(order, _) => Collected(s0, order)
    case Complete(ok, now) => Completed(s0, ok, now)
    case Restart(refs, now) => Restarted(s.disk, s.log, s.derivedOnDisk, refs, now)
  }

  lemma WriteKeepsWellFormed<Ref>(s: State<Ref>, r: Ref, record: Record)
    requires WellFormed(s) && r in s.objects && s.objects[r].id == record.id
    ensures WellFormed(Write(s, r, record))
  {
  }

  lemma ArmKeepsWellFormed<Ref>(s: State<Ref>, r: Ref, fields: Record, now: int)
    requires WellFormed(s) && (r in s.objects ==> s.objects[r].id == fields.id)
    ensures WellFormed(Write(Register(s, r, fields), r, ArmedRecord(fields, now)))
  {
  }

  lemma CollectKeepsWellFormed<Ref>(s: State<Ref>, order: seq<Ref>, now: int)
    requires WellFormed(s) && DueList(s, order, now)
    ensures WellFormed(Collected(s, order))
  {
  }

  lemma CompleteKeepsWellFormed<Ref>(s: State<Ref>, ok: bool, now: int)
    requires WellFormed(s) && s.toFire != []
    ensures WellFormed(Completed(s, ok, now))
  {
  }

  lemma RestartIsWellFormed<Ref>(s: State<Ref>, refs: map<string, Ref>, now: int)
    requires WellFormed(s) && FreshRefs(s.disk, refs)
    ensures WellFormed(Restarted(s.disk, s.log, s.derivedOnDisk, refs, now))
  {
  }

  lemma StepKeepsWellFormed<Ref>(s: State<Ref>, step: Step<Ref>)
    requires WellFormed(s) && Enabled(s, step)
    ensures WellFormed(Next(s, step))
  {
    var s0 := s.(clock := step.now);
    match step
    case Arm(r, fields, now) =>
      ArmKeepsWellFormed(s0, r, fields, now);
    case CheckIn(id, now) =>
      if CheckInResult(s, id).Success? {
        WriteKeepsWellFormed(s0, s.switches[id], CheckedIn(s.objects[s.switches[id]], now));
      }
    case Disarm(id, _) =>
      if DisarmResult(s, id).Success? {
        WriteKeepsWellFormed(s0, s.switches[id], s.objects[s.switches[id]].(status := Cancelled));
      }
    case Collect(order, now) =>
      CollectKeepsWellFormed(s0, order, now);
    case Complete(ok, now) =>
      CompleteKeepsWellFormed(s0, ok, now);
    case Restart(refs, now) =>
      RestartIsWellFormed(s, refs, now);
  }

  // Memory and disk.

  /** What is on disk: the object's record, except that an object in flight is still armed there. */
  ghost function Expected<Ref>(s: State<Ref>, r: Ref): Record
    requires r in s.objects
  {
    if r in s.toFire && s.objects[r].status == Fired then s.objects[r].(status := Armed) else s.objects[r]
  }

  /** Every switch in memory agrees with its file, and files without a switch in memory are not armed. */
  ghost predicate DiskAgrees<Ref>(s: State<Ref>)
    requires WellFormed(s)
  {
    && (forall id :: id in s.switches ==> id in s.disk && s.disk[id] == Expected(s, s.switches[id]))
    && (forall id :: id in s.disk && id !in s.switches ==> s.disk[id].status != Armed)
  }

  ghost predicate IsCurrent<Ref>(s: State<Ref>, r: Ref)
    requires WellFormed(s) && r in s.objects
  {
    var id := s.objects[r].id;
    id in s.switches && s.switches[id] == r
  }

  /** A change that is saved at once keeps agreement, unless it makes an object in flight fired. */
  lemma WriteKeepsAgreement<Ref>(s: State<Ref>, r: Ref, record: Record)
    requires WellFormed(s) && DiskAgrees(s) && r in s.objects && s.objects[r].id == record.id
    requires IsCurrent(s, r) && record.status != Fired
    ensures WellFormed(Write(s, r, record)) && DiskAgrees(Write(s, r, record))
  {
    WriteKeepsWellFormed(s, r, record);
  }

  lemma ArmKeepsAgreement<Ref>(s: State<Ref>, r: Ref, fields: Record, now: int)
    requires WellFormed(s) && DiskAgrees(s) && (r in s.objects ==> s.objects[r].id == fields.id)
    ensures var s' := Write(Register(s, r, fields), r, ArmedRecord(fields, now)); WellFormed(s') && DiskAgrees(s')
  {
    ArmKeepsWellFormed(s, r, fields, now);
    var s' := Write(Register(s, r, fields), r, ArmedRecord(fields, now));
    forall id | id in s'.switches
      ensures id in s'.disk && s'.disk[id] == Expected(s', s'.switches[id])
    {
    }
  }

  lemma UpdateKeepsAgreement<Ref>(s: State<Ref>, step: Step<Ref>)
    requires WellFormed(s) && Enabled(s, step) && DiskAgrees(s)
    requires step.Arm? || step.CheckIn? || step.Disarm?
    ensures WellFormed(Next(s, step)) && DiskAgrees(Next(s, step))
  {
    var s0 := s.(clock := step.now);
    assert DiskAgrees(s0);
    match step
    case Arm(r, fields, now) =>
      ArmKeepsAgreement(s0, r, fields, now);
    case CheckIn(id, now) =>
      if CheckInResult(s, id).Success? {
        WriteKeepsAgreement(s0, s.switches[id], CheckedIn(s.objects[s.switches[id]], now));
      }
    case Disarm(id, _) =>
      if DisarmResult(s, id).Success? {
        WriteKeepsAgreement(s0, s.switches[id], s.objects[s.switches[id]].(status := Cancelled));
      }
  }

  lemma CollectKeepsAgreement<Ref>(s: State<Ref>, step: Step<Ref>)
    requires WellFormed(s) && Enabled(s, step) && DiskAgrees(s) && step.Collect?
    ensures WellFormed(Next(s, step)) && DiskAgrees(Next(s, step))
  {
    StepKeepsWellFormed(s, step);
  }

  lemma RestartAgrees<Ref>(s: State<Ref>, step: Step<Ref>)
    requires WellFormed(s) && Enabled(s, step) && step.Restart?
    ensures WellFormed(Next(s, step)) && DiskAgrees(Next(s, step))
  {
    StepKeepsWellFormed(s, step);
  }

  /** The guard under which a finished trigger leaves memory and disk in agreement. */
  ghost predicate CleanFinish<Ref>(s: State<Ref>, ok: bool)
    requires WellFormed(s) && s.toFire != []
  {
    var r := s.toFire[0];
    var id := s.objects[r].id;
    if ok then s.objects[r] == s.objects[s.switches[id]]
    else IsCurrent(s, r) ==> s.objects[r].status == Fired || s.objects[r].status == Armed
  }

  /** The end of a trigger changes nothing about the switches of other ids. */
  lemma OthersAgree<Ref>(s: State<Ref>, ok: bool, now: int, id: string)
    requires WellFormed(s) && Enabled(s, Complete(ok, now)) && DiskAgrees(s)
    requires id in s.switches && id != s.objects[s.toFire[0]].id
    ensures var s' := Next(s, Complete(ok, now));
            && s.switches[id] in s'.objects && s'.switches == s.switches
            && id in s'.disk && s'.disk[id] == Expected(s', s.switches[id])
  {
    assert s.objects[s.switches[id]].id == id;
  }

  lemma SuccessAgreesIff<Ref>(s: State<Ref>, now: int)
    requires WellFormed(s) && Enabled(s, Complete(true, now)) && DiskAgrees(s)
    ensures var s' := Next(s, Complete(true, now)); WellFormed(s') && (DiskAgrees(s') <==> CleanFinish(s, true))
  {
    StepKeepsWellFormed(s, Complete(true, now));
    var s' := Next(s, Complete(true, now));
    var id := s.objects[s.toFire[0]].id;
    forall x | x in s.switches && x != id
      ensures x in s'.disk && s'.disk[x] == Expected(s', s'.switches[x])
    {
      OthersAgree(s, true, now, x);
    }
    assert s.switches[id] !in s'.toFire;
    assert s'.disk[id] == Expected(s', s'.switches[id]) <==> CleanFinish(s, true);
  }

  lemma FailureAgreesIff<Ref>(s: State<Ref>, now: int)
    requires WellFormed(s) && Enabled(s, Complete(false, now)) && DiskAgrees(s)
    ensures var s' := Next(s, Complete(false, now)); WellFormed(s') && (DiskAgrees(s') <==> CleanFinish(s, false))
  {
    StepKeepsWellFormed(s, Complete(false, now));
    var s' := Next(s, Complete(false, now));
    var r := s.toFire[0];
    var id := s.objects[r].id;
    assert r !in s'.toFire && s.switches[id] !in s'.toFire;
    assert s'.disk[id] == Expected(s', s.switches[id]) <==> CleanFinish(s, false);
  }

  lemma CompleteAgreesIff<Ref>(s: State<Ref>, step: Step<Ref>)
    requires WellFormed(s) && Enabled(s, step) && DiskAgrees(s) && step.Complete?
    ensures WellFormed(Next(s, step))
    ensures DiskAgrees(Next(s, step)) <==> CleanFinish(s, step.ok)
  {
    if step.ok {
      SuccessAgreesIff(s, step.now);
    } else {
      FailureAgreesIff(s, step.now);
    }
  }

  // Each lemma below turns a description of the new state, component by component, into one step.

  lemma ArmStep<Ref>(s: State<Ref>, r: Ref, fields: Record, now: int, s': State<Ref>)
    requires WellFormed(s) && s.clock <= now && (r in s.objects ==> fields == s.objects[r])
    requires ArmResult(fields).Success?
    requires s' == Write(Register(s.(clock := now), r, fields), r, ArmedRecord(fields, now))
    ensures s' == Next(s, Arm(r, fields, now)) && WellFormed(s')
  {
    StepKeepsWellFormed(s, Arm(r, fields, now));
  }

  lemma CheckInStep<Ref>(s: State<Ref>, id: string, now: int, s': State<Ref>)
    requires WellFormed(s) && s.clock <= now && CheckInResult(s, id).Success?
    requires s' == Write(s.(clock := now), s.switches[id], CheckedIn(s.objects[s.switches[id]], now))
    ensures s' == Next(s, CheckIn(id, now)) && WellFormed(s')
  {
    StepKeepsWellFormed(s, CheckIn(id, now));
  }

  lemma DisarmStep<Ref>(s: State<Ref>, id: string, now: int, s': State<Ref>)
    requires WellFormed(s) && s.clock <= now && id in s.switches
    requires s' == Write(s.(clock := now), s.switches[id], s.objects[s.switches[id]].(status := Cancelled))
    ensures s' == Next(s, Disarm(id, now)) && WellFormed(s')
  {
    StepKeepsWellFormed(s, Disarm(id, now));
  }

  lemma CollectStep<Ref>(s: State<Ref>, order: seq<Ref>, now: int, s': State<Ref>)
    requires WellFormed(s) && s.clock <= now && s.toFire == [] && DueList(s, order, now)
    requires s' == Collected(s.(clock := now), order)
    ensures s' == Next(s, Collect(order, now)) && WellFormed(s')
  {
    StepKeepsWellFormed(s, Collect(order, now));
  }

  lemma CompleteStep<Ref>(s: State<Ref>, ok: bool, now: int, s': State<Ref>)
    requires WellFormed(s) && s.clock <= now && s.toFire != []
    requires s' == Completed(s.(clock := now), ok, now)
    ensures s' == Next(s, Complete(ok, now)) && WellFormed(s')
  {
    StepKeepsWellFormed(s, Complete(ok, now));
  }

  lemma RefusedStep<Ref>(s: State<Ref>, step: Step<Ref>)
    requires WellFormed(s) && Enabled(s, step)
    requires match step
             case Arm(_, fields, _) => ArmResult(fields).Failure?
             case CheckIn(id, _) => CheckInResult(s, id).Failure?
             case Disarm(id, _) => DisarmResult(s, id).Failure?
             case _ => false
    ensures s.(clock := step.now) == Next(s, step) && WellFormed(s.(clock := step.now))
  {
    StepKeepsWellFormed(s, step);
  }
}
