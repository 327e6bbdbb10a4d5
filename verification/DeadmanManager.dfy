/** The manager's methods, each proved to be one step of the state machine. */
module DeadmanManager {
  import opened DeadmanSwitches
  import opened Results

  /** A switch object; callers and the tick in flight hold references to it. */
  class Switch {
    var fields: Record

    constructor (fields: Record)
      ensures this.fields == fields
    {
      this.fields := fields;
    }

    method Stamp(now: int)
      modifies this
      ensures fields == ArmedRecord(old(fields), now)
    {
      fields := fields.(status := Armed, createdAt := now, lastCheckIn := now);
      if fields.deadline == 0 {
        fields := fields.(deadline := now + fields.interval);
      }
    }

    method Touch(now: int)
      modifies this
      ensures fields == CheckedIn(old(fields), now)
    {
      fields := fields.(lastCheckIn := now);
      if fields.interval > 0 {
        fields := fields.(deadline := now + fields.interval);
      }
    }
  }

  class Manager {
    var switches: map<string, Switch>
    var disk: map<string, Record>
    /** The switches that the tick in flight has yet to finish. */
    var toFire: seq<Switch>
    /** The objects that have been armed or loaded, the time, and the history. */
    ghost var objects: set<Switch>
    ghost var clock: int
    ghost var log: seq<Trigger<Switch>>
    ghost var derived: set<Switch>
    ghost var derivedOnDisk: set<string>

    ghost function Objects(): map<Switch, Record>
      reads this, objects
    {
      map s | s in objects :: s.fields
    }

    ghost function View(): State<Switch>
      reads this, objects
    {
      State(switches, Objects(), disk, toFire, clock, log, derived, derivedOnDisk)
    }

    ghost predicate Valid()
      reads this, objects
    {
      WellFormed(View())
    }

    method Save(s: Switch)
      modifies this`disk, this`derivedOnDisk
      ensures disk == old(disk)[s.fields.id := s.fields]
      ensures derivedOnDisk
           == if s in derived then old(derivedOnDisk) + {s.fields.id} else old(derivedOnDisk) - {s.fields.id}
    {
      disk := disk[s.fields.id := s.fields];
      derivedOnDisk := if s in derived then derivedOnDisk + {s.fields.id} else derivedOnDisk - {s.fields.id};
    }

    /** Registers an acceptable switch and writes its file. */
    method Enter(s: Switch, now: int)
      modifies this, s
      ensures objects == old(objects) + {s}
      ensures View() == Write(Register(old(View()), s, old(s.fields)), s, ArmedRecord(old(s.fields), now))
    {
      ghost var before := Objects();
      derived := if s.fields.deadline == 0 && s.fields.interval > 0 then derived + {s} else derived - {s};
      s.Stamp(now);
      switches := switches[s.fields.id := s];
      objects := objects + {s};
      Save(s);
      assert Objects() == before[s := s.fields];
    }

    method Arm(s: Switch, now: int) returns (r: Result)
      requires Valid() && clock <= now
      modifies this, s
      ensures objects <= old(objects) + {s}
      ensures r == ArmResult(old(s.fields))
      ensures r.Success? <==>
                && old(s.fields.id) != "" && old(s.fields.recipients) != []
                && (old(s.fields.deadline) != 0 || old(s.fields.interval) != 0)
      ensures Valid() && View() == Next(old(View()), DeadmanSwitches.Arm(s, old(s.fields), now))
    {
      ghost var before, fields := View(), s.fields;
      clock := now;
      if s.fields.id == "" {
        r := Failure(MissingId);
      } else if s.fields.deadline == 0 && s.fields.interval == 0 {
        r := Failure(MissingDeadline);
      } else if s.fields.recipients == [] {
        r := Failure(MissingRecipients);
      } else {
        r := Success;
      }
      if r.Success? {
        Enter(s, now);
        ArmStep(before, s, fields, now, View());
      } else {
        RefusedStep(before, DeadmanSwitches.Arm(s, fields, now));
      }
    }

    method CheckIn(id: string, now: int) returns (r: Result)
      requires Valid() && clock <= now
      modifies this, objects
      ensures objects == old(objects)
      ensures r == CheckInResult(old(View()), id)
      ensures r.Success? <==> id in old(switches) && old(switches[id].fields.status) == Armed
      ensures Valid() && View() == Next(old(View()), DeadmanSwitches.CheckIn(id, now))
    {
      ghost var before := View();
      clock := now;
      if id !in switches {
        RefusedStep(before, DeadmanSwitches.CheckIn(id, now));
        return Failure(NotFound);
      }
      var s := switches[id];
      if s.fields.status != Armed {
        RefusedStep(before, DeadmanSwitches.CheckIn(id, now));
        return Failure(NotArmed(s.fields.status));
      }
      s.Touch(now);
      Save(s);
      assert Objects() == before.objects[s := s.fields];
      CheckInStep(before, id, now, View());
      return Success;
    }

    method Disarm(id: string, now: int) returns (r: Result)
      requires Valid() && clock <= now
      modifies this, objects
      ensures objects == old(objects)
      ensures r == DisarmResult(old(View()), id)
      ensures Valid() && View() == Next(old(View()), DeadmanSwitches.Disarm(id, now))
    {
      ghost var before := View();
      clock := now;
      if id !in switches {
        RefusedStep(before, DeadmanSwitches.Disarm(id, now));
        return Failure(NotFound);
      }
      var s := switches[id];
      s.fields := s.fields.(status := Cancelled);
      Save(s);
      assert Objects() == before.objects[s := s.fields];
      DisarmStep(before, id, now, View());
      return Success;
    }

    /** The overdue switches are marked and listed, except those of the given ids, which are as before. */
    ghost predicate MarkedExcept(ids: set<string>, before: map<Switch, Record>, now: int)
      requires objects <= before.Keys
      reads this, objects
    {
      && (forall id :: id in switches ==> switches[id] in objects && before[switches[id]].id == id)
      && (forall o :: o in objects ==> o.fields == if o in toFire then before[o].(status := Fired) else before[o])
      && (forall o :: o in toFire ==> o in objects && Due(before[o], now) && before[o].id !in ids)
      && (forall o :: o in toFire ==> before[o].id in switches && switches[before[o].id] == o)
      && (forall i, j :: 0 <= i < j < |toFire| ==> toFire[i] != toFire[j])
      && (forall id :: id in switches && id !in ids && Due(before[switches[id]], now) ==> switches[id] in toFire)
    }

    method MarkIfDue(id: string, now: int, ghost ids: set<string>, ghost before: map<Switch, Record>)
      requires objects <= before.Keys && MarkedExcept(ids, before, now)
      requires id in ids && id in switches
      modifies this`toFire, objects
      ensures MarkedExcept(ids - {id}, before, now)
      ensures toFire == if && old(switches[id].fields.status) == Armed
                           && now > old(switches[id].fields.deadline) + old(switches[id].fields.grace)
                        then old(toFire) + [switches[id]] else old(toFire)
    {
      ghost var listed := toFire;
      var s := switches[id];
      assert s !in listed;
      if s.fields.status == Armed && now > s.fields.deadline + s.fields.grace {
        s.fields := s.fields.(status := Fired);
        toFire := toFire + [s];
        assert forall o :: o in toFire <==> o in listed || o == s;
      }
    }

    /** Marks the overdue switches, in the order the map yields them. */
    method MarkDue(now: int)
      requires toFire == []
      requires forall id :: id in switches ==> switches[id] in objects && switches[id].fields.id == id
      modifies this`toFire, objects
      ensures MarkedExcept({}, old(Objects()), now)
      ensures forall id :: id in switches ==>
                (switches[id] in toFire <==>
                  && old(switches[id].fields.status) == Armed
                  && now > old(switches[id].fields.deadline) + old(switches[id].fields.grace))
    {
      var ids := switches.Keys;
      ghost var before := Objects();
      while ids != {}
        invariant ids <= switches.Keys && MarkedExcept(ids, before, now)
        decreases ids
      {
        var id :| id in ids;
        MarkIfDue(id, now, ids, before);
        ids := ids - {id};
      }
    }

    lemma MarkedIsCollected(before: State<Switch>, now: int)
      requires WellFormed(before) && before.switches == switches && before.objects.Keys == objects
      requires MarkedExcept({}, before.objects, now)
      ensures DueList(before, toFire, now) && Objects() == Collected(before, toFire).objects
    {
      forall id | id in before.switches && Due(before.objects[before.switches[id]], now)
        ensures before.switches[id] in toFire
      {
        assert id in switches;
      }
    }

    /** The first half of a tick, under the lock. */
    method Collect(now: int)
      requires Valid() && clock <= now && toFire == []
      modifies this, objects
      ensures objects == old(objects)
      ensures DueList(old(View()), toFire, now)
      ensures switches == old(switches)
      ensures forall id :: id in switches ==>
                (switches[id] in toFire <==>
                  && old(switches[id].fields.status) == Armed
                  && now > old(switches[id].fields.deadline) + old(switches[id].fields.grace))
      ensures Valid() && View() == Next(old(View()), DeadmanSwitches.Collect(toFire, now))
    {
      ghost var before := View();
      clock := now;
      MarkDue(now);
      MarkedIsCollected(before, now);
      CollectStep(before, toFire, now, View());
    }

    /** The second half for one switch: the trigger has returned ok, or there is none, or it has failed. */
    method Complete(ok: bool, now: int)
      requires Valid() && clock <= now && toFire != []
      modifies this, objects
      ensures objects == old(objects)
      ensures Valid() && View() == Next(old(View()), DeadmanSwitches.Complete(ok, now))
    {
      ghost var before := View();
      clock := now;
      var s := toFire[0];
      toFire := toFire[1..];
      log := log + [Trigger(s, s.fields, now, ok, s in derived)];
      if ok {
        Save(s);
        assert Objects() == before.objects[s := s.fields];
      } else {
        s.fields := s.fields.(status := Armed);
        assert Objects() == before.objects[s := s.fields];
      }
      CompleteStep(before, ok, now, View());
    }

    /** A manager for the files that an earlier one left behind, in the order of their names. */
    constructor Load(files: seq<File>, now: int, ghost log: seq<Trigger<Switch>>, ghost derivedOnDisk: set<string>)
      ensures Loaded(files, switches) && disk == Directory(files) && toFire == []
      ensures forall id :: id in switches ==> switches[id].fields == LastArmed(files, id).value
      ensures fresh(objects) && objects == switches.Values && clock == now
      ensures this.log == log && this.derivedOnDisk == derivedOnDisk
      ensures derived == set id | id in derivedOnDisk && id in switches :: switches[id]
    {
      switches, disk, toFire := map[], Directory(files), [];
      objects, clock := {}, now;
      this.log, this.derivedOnDisk, derived := log, derivedOnDisk, {};
      new;
      switches := ReadFiles(files);
      objects := switches.Values;
      derived := set id | id in derivedOnDisk && id in switches :: switches[id];
    }

    /** Where the files are named after the ids in them, as saving names them, this is the restarted state. */
    lemma LoadedIsRestarted(files: seq<File>)
      requires DistinctNames(files) && NamedById(files)
      requires Loaded(files, switches) && disk == Directory(files) && toFire == []
      requires forall id :: id in switches ==> switches[id].fields == LastArmed(files, id).value
      requires objects == switches.Values
      requires derived == set id | id in derivedOnDisk && id in switches :: switches[id]
      ensures FreshRefs(disk, switches) && View() == Restarted(disk, log, derivedOnDisk, switches, clock)
    {
      LoadedByName(files, switches);
      assert Objects() == Restarted(disk, log, derivedOnDisk, switches, clock).objects;
    }
  }

  // The files.

  /** A file, named without its extension. */
  datatype File = File(name: string, record: Record)

  ghost predicate DistinctNames(files: seq<File>) {
    forall i, j :: 0 <= i < j < |files| ==> files[i].name != files[j].name
  }

  /** Every file is named after the id that is in it, as saving names it. */
  ghost predicate NamedById(files: seq<File>) {
    forall i :: 0 <= i < |files| ==> files[i].name == files[i].record.id
  }

  function Directory(files: seq<File>): map<string, Record> {
    if files == [] then map[] else Directory(files[..|files| - 1])[files[|files| - 1].name := files[|files| - 1].record]
  }

  /** The record of the last file that holds an armed switch of this id, whatever its name. */
  function LastArmed(files: seq<File>, id: string): Option<Record> {
    if files == [] then None
    else
      var last := files[|files| - 1].record;
      if last.id == id && last.status == Armed then Some(last) else LastArmed(files[..|files| - 1], id)
  }

  /** In memory are the ids that some file holds armed, each with an object of its own. */
  ghost predicate Loaded(files: seq<File>, loaded: map<string, Switch>) {
    && (forall id :: id in loaded <==> LastArmed(files, id).Some?)
    && (forall a, b :: a in loaded && b in loaded && loaded[a] == loaded[b] ==> a == b)
  }

  method ReadFiles(files: seq<File>) returns (loaded: map<string, Switch>)
    ensures Loaded(files, loaded)
    ensures forall id :: id in loaded ==> fresh(loaded[id]) && loaded[id].fields == LastArmed(files, id).value
  {
    loaded := map[];
    for i := 0 to |files|
      invariant Loaded(files[..i], loaded)
      invariant forall id :: id in loaded ==> fresh(loaded[id]) && loaded[id].fields == LastArmed(files[..i], id).value
    {
      assert files[..i + 1][..i] == files[..i];
      var record := files[i].record;
      if record.status == Armed {
        var s := new Switch(record);
        loaded := loaded[record.id := s];
      }
    }
    assert files[..|files|] == files;
  }

  /** It is the record of a file that is armed and has this id, and no later file is and has. */
  lemma {:induction false} LastArmedIff(files: seq<File>, id: string, r: Record)
    ensures LastArmed(files, id) == Some(r) <==>
              exists i :: 0 <= i < |files| && files[i].record == r && r.id == id && r.status == Armed
                && forall k :: i < k < |files| ==> files[k].record.id != id || files[k].record.status != Armed
  {
    if files != [] {
      var n := |files| - 1;
      LastArmedIff(files[..n], id, r);
      assert forall k :: 0 <= k < n ==> files[..n][k] == files[k];
      if files[n].record.id == id && files[n].record.status == Armed {
        assert LastArmed(files, id) == Some(r) <==> files[n].record == r;
      }
    }
  }

  lemma {:induction false} DirectoryContents(files: seq<File>, name: string)
    requires DistinctNames(files)
    ensures name in Directory(files) <==> exists i :: 0 <= i < |files| && files[i].name == name
    ensures forall i :: 0 <= i < |files| && files[i].name == name ==> Directory(files)[name] == files[i].record
  {
    if files != [] {
      var init := files[..|files| - 1];
      DirectoryContents(init, name);
      assert forall i :: 0 <= i < |init| ==> init[i] == files[i];
    }
  }

  lemma {:induction false} LastArmedByName(files: seq<File>, id: string)
    requires DistinctNames(files) && NamedById(files)
    ensures LastArmed(files, id) == if Reloads(Directory(files), id) then Some(Directory(files)[id]) else None
  {
    if files != [] {
      var init := files[..|files| - 1];
      LastArmedByName(init, id);
      DirectoryContents(init, id);
      assert forall i :: 0 <= i < |init| ==> init[i] == files[i];
    }
  }

  /** Where files are named after their ids, what is loaded is what the state machine says. */
  lemma LoadedByName(files: seq<File>, loaded: map<string, Switch>)
    requires DistinctNames(files) && NamedById(files) && Loaded(files, loaded)
    ensures FreshRefs(Directory(files), loaded)
    ensures forall id :: id in loaded ==> LastArmed(files, id) == Some(Directory(files)[id])
  {
    forall id
      ensures LastArmed(files, id) == if Reloads(Directory(files), id) then Some(Directory(files)[id]) else None
    {
      LastArmedByName(files, id);
    }
  }
}
