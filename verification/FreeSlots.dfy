/** Finding a time outside the busy calendar slots. Times are in nanoseconds. */
module FreeSlots {
  import opened Permutations

  const SECOND := 1_000_000_000
  const PAUSE := 5 * 60 * SECOND

  datatype BusySlot = BusySlot(start: int, end: int)

  /** The slot moves the candidate to its end plus the pause. */
  predicate Pushes(slot: BusySlot, candidate: int) {
    slot.start - SECOND < candidate < slot.end
  }

  function Sweep(candidate: int, slots: seq<BusySlot>): int
    decreases slots
  {
    if slots == [] then candidate
    else Sweep(if Pushes(slots[0], candidate) then slots[0].end + PAUSE else candidate, slots[1..])
  }

  ghost predicate Sorted(slots: seq<BusySlot>) {
    forall i, j :: 0 <= i < j < |slots| ==> slots[i].start <= slots[j].start
  }

  predicate Busy(slot: BusySlot, t: int) {
    slot.start <= t < slot.end
  }

  method SwapWithPrevious(busy: array<BusySlot>, j: nat)
    requires 0 < j < busy.Length
    modifies busy
    ensures busy[..] == old(busy[..][j := busy[j - 1]][j - 1 := busy[j]])
    ensures multiset(busy[..]) == old(multiset(busy[..]))
  {
    busy[j - 1], busy[j] := busy[j], busy[j - 1];
  }

  /** Moves slot i to its place among those before it. */
  method Insert(busy: array<BusySlot>, i: nat)
    requires i < busy.Length && Sorted(busy[..i])
    modifies busy
    ensures Sorted(busy[..i + 1]) && multiset(busy[..]) == old(multiset(busy[..]))
  {
    var j := i;
    while j > 0 && busy[j - 1].start > busy[j].start
      invariant j <= i && multiset(busy[..]) == old(multiset(busy[..]))
      invariant forall a, b :: 0 <= a < b <= i && b != j ==> busy[a].start <= busy[b].start
    {
      SwapWithPrevious(busy, j);
      j := j - 1;
    }
  }

  /** Sorts by start time; nothing is promised about slots that start together. */
  method SortByStart(busy: array<BusySlot>)
    modifies busy
    ensures Sorted(busy[..]) && multiset(busy[..]) == old(multiset(busy[..]))
  {
    for i := 0 to busy.Length
      invariant Sorted(busy[..i]) && multiset(busy[..]) == old(multiset(busy[..]))
    {
      Insert(busy, i);
    }
    assert busy[..busy.Length] == busy[..];
  }

  method FindNextFree(now: int, busy: array<BusySlot>) returns (candidate: int)
    modifies busy
    ensures Sorted(busy[..]) && multiset(busy[..]) == old(multiset(busy[..]))
    ensures candidate == Sweep(now, busy[..])
    ensures candidate >= now && forall slot :: slot in old(multiset(busy[..])) ==> !Busy(slot, candidate)
    ensures NoneClose(old(busy[..])) ==>
              forall order :: Sorted(order) && multiset(order) == old(multiset(busy[..])) ==>
                candidate == Sweep(now, order)
  {
    SortByStart(busy);
    candidate := now;
    for i := 0 to busy.Length
      invariant Sweep(candidate, busy[i..]) == Sweep(now, busy[..])
    {
      var slot := busy[i];
      assert busy[i..][1..] == busy[i + 1..];
      if candidate < slot.end && candidate > slot.start - SECOND {
        candidate := slot.end + PAUSE;
      }
    }
    SweepForward(now, busy[..]);
    SweepFindsFree(now, busy[..]);
    if NoneClose(old(busy[..])) {
      SameElements(busy[..], old(busy[..]));
      forall order | Sorted(order) && multiset(order) == old(multiset(busy[..]))
        ensures Sweep(now, busy[..]) == Sweep(now, order)
      {
        TiesDoNotMatter(now, busy[..], order);
      }
    }
  }

  lemma {:induction false} SweepForward(candidate: int, slots: seq<BusySlot>)
    ensures Sweep(candidate, slots) >= candidate
    decreases slots
  {
    if slots != [] {
      SweepForward(if Pushes(slots[0], candidate) then slots[0].end + PAUSE else candidate, slots[1..]);
    }
  }

  lemma {:induction false} SweepStays(candidate: int, slots: seq<BusySlot>)
    ensures Sweep(candidate, slots) == candidate <==> forall k :: 0 <= k < |slots| ==> !Pushes(slots[k], candidate)
    decreases slots
  {
    if slots != [] {
      if Pushes(slots[0], candidate) {
        SweepForward(slots[0].end + PAUSE, slots[1..]);
      } else {
        SweepStays(candidate, slots[1..]);
      }
    }
  }

  /** A slot pushes a time that is before its end and less than a second before its start, or later. */
  lemma PushesIff(slot: BusySlot, t: int)
    ensures Pushes(slot, t) <==> slot.start - 1_000_000_000 < t < slot.end
  {
  }

  /** A single slot leaves the present alone or moves it to five minutes after its end. */
  lemma SweepOne(now: int, slot: BusySlot)
    ensures Sweep(now, [slot])
         == if slot.start - 1_000_000_000 < now < slot.end then slot.end + 300_000_000_000 else now
  {
    assert [slot][1..] == [];
  }

  /** Slots are swept one after the other. */
  lemma {:induction false} SweepAppend(now: int, a: seq<BusySlot>, b: seq<BusySlot>)
    ensures Sweep(now, a + b) == Sweep(Sweep(now, a), b)
    decreases a
  {
    if a == [] {
      assert a + b == b;
    } else {
      assert (a + b)[1..] == a[1..] + b;
      SweepAppend(if Pushes(a[0], now) then a[0].end + PAUSE else now, a[1..], b);
    }
  }

  /** The time found is in no slot. */
  lemma {:induction false} SweepFindsFree(now: int, slots: seq<BusySlot>)
    requires Sorted(slots)
    ensures forall k :: 0 <= k < |slots| ==> !Busy(slots[k], Sweep(now, slots))
    decreases slots
  {
    if slots != [] {
      var next := if Pushes(slots[0], now) then slots[0].end + PAUSE else now;
      SweepFindsFree(next, slots[1..]);
      SweepForward(next, slots[1..]);
      if next < slots[0].end {
        SweepStays(next, slots[1..]);
      }
    }
  }

  /** Every instant that is skipped lies in some slot, widened by a second before it and the pause after it. */
  lemma {:induction false} SweepSkipsOnlyPadded(now: int, slots: seq<BusySlot>, x: int)
    requires now <= x < Sweep(now, slots)
    ensures exists k :: 0 <= k < |slots| && slots[k].start - 1_000_000_000 < x < slots[k].end + 300_000_000_000
    decreases slots
  {
    var next := if Pushes(slots[0], now) then slots[0].end + PAUSE else now;
    if x < next {
      assert slots[0].start - SECOND < x < slots[0].end + PAUSE;
    } else {
      SweepSkipsOnlyPadded(next, slots[1..], x);
      var k :| 0 <= k < |slots[1..]| && slots[1..][k].start - SECOND < x < slots[1..][k].end + PAUSE;
      assert slots[k + 1] == slots[1..][k];
    }
  }

  predicate AnyBusy(slots: seq<BusySlot>, t: int) {
    exists k :: 0 <= k < |slots| && Busy(slots[k], t)
  }

  ghost predicate EarliestFree(now: int, slots: seq<BusySlot>, t: int) {
    now <= t && !AnyBusy(slots, t) && forall x :: now <= x < t ==> AnyBusy(slots, x)
  }

  /** The sweep without pauses: a reference for the earliest free time. */
  function EarliestSweep(candidate: int, slots: seq<BusySlot>): int
    decreases slots
  {
    if slots == [] then candidate
    else EarliestSweep(if Busy(slots[0], candidate) then slots[0].end else candidate, slots[1..])
  }

  lemma {:induction false} EarliestSweepStays(candidate: int, slots: seq<BusySlot>)
    requires forall k :: 0 <= k < |slots| ==> candidate < slots[k].start
    ensures EarliestSweep(candidate, slots) == candidate
    decreases slots
  {
    if slots != [] {
      EarliestSweepStays(candidate, slots[1..]);
    }
  }

  lemma {:induction false} EarliestSweepIsEarliest(now: int, slots: seq<BusySlot>)
    requires Sorted(slots)
    ensures EarliestFree(now, slots, EarliestSweep(now, slots))
    decreases slots
  {
    if slots != [] {
      var next := if Busy(slots[0], now) then slots[0].end else now;
      var t := EarliestSweep(next, slots[1..]);
      EarliestSweepIsEarliest(next, slots[1..]);
      if now < slots[0].start {
        EarliestSweepStays(now, slots[1..]);
      }
      forall k | 0 <= k < |slots|
        ensures !Busy(slots[k], t)
      {
        assert k > 0 ==> slots[k] == slots[1..][k - 1];
      }
      forall x | now <= x < t
        ensures AnyBusy(slots, x)
      {
        if x < next {
          assert Busy(slots[0], x);
        } else {
          assert AnyBusy(slots[1..], x);
          var k :| 0 <= k < |slots[1..]| && Busy(slots[1..][k], x);
          assert Busy(slots[k + 1], x);
        }
      }
    }
  }

  /** Some slot is busy at every instant from one time up to another. */
  ghost predicate BusyThroughout(slots: seq<BusySlot>, from: int, to: int) {
    forall x :: from <= x < to ==> AnyBusy(slots, x)
  }

  /** Which can be read off the slots. */
  lemma BusyThroughoutIff(slots: seq<BusySlot>, from: int, to: int)
    requires Sorted(slots)
    ensures BusyThroughout(slots, from, to) <==> to <= from || to <= EarliestSweep(from, slots)
  {
    EarliestSweepIsEarliest(from, slots);
  }

  /**
   * Whenever a slot pushes the candidate, all the time that is skipped is busy: the time up to the slot's start,
   * and the pause after its end.
   */
  ghost predicate Covered(candidate: int, slots: seq<BusySlot>, all: seq<BusySlot>)
    decreases slots
  {
    if slots == [] then true
    else if !Pushes(slots[0], candidate) then Covered(candidate, slots[1..], all)
    else
      && BusyThroughout(all, candidate, slots[0].start)
      && BusyThroughout(all, slots[0].end, slots[0].end + PAUSE)
      && Covered(slots[0].end + PAUSE, slots[1..], all)
  }

  lemma {:induction false} CoveredIff(candidate: int, slots: seq<BusySlot>, all: seq<BusySlot>)
    requires forall k :: 0 <= k < |slots| ==> slots[k] in all
    ensures Covered(candidate, slots, all) <==> BusyThroughout(all, candidate, Sweep(candidate, slots))
    decreases slots
  {
    if slots != [] {
      var slot := slots[0];
      if Pushes(slot, candidate) {
        CoveredIff(slot.end + PAUSE, slots[1..], all);
        SweepForward(slot.end + PAUSE, slots[1..]);
        forall x | slot.start <= x < slot.end
          ensures AnyBusy(all, x)
        {
          var k :| 0 <= k < |all| && all[k] == slot;
          assert Busy(all[k], x);
        }
      } else {
        CoveredIff(candidate, slots[1..], all);
      }
    }
  }

  /** The result is the earliest free time exactly if all the time that the sweep skips is busy. */
  lemma EarliestIff(now: int, slots: seq<BusySlot>)
    requires Sorted(slots)
    ensures EarliestFree(now, slots, Sweep(now, slots)) <==> Covered(now, slots, slots)
  {
    CoveredIff(now, slots, slots);
    SweepForward(now, slots);
    SweepFindsFree(now, slots);
  }

  lemma {:induction false} SweepEndsAt(now: int, slots: seq<BusySlot>)
    ensures Sweep(now, slots) == now
         || exists k :: 0 <= k < |slots| && Sweep(now, slots) == slots[k].end + 300_000_000_000
    decreases slots
  {
    if slots != [] {
      var next := if Pushes(slots[0], now) then slots[0].end + PAUSE else now;
      SweepEndsAt(next, slots[1..]);
      if k :| 0 <= k < |slots[1..]| && Sweep(next, slots[1..]) == slots[1..][k].end + PAUSE {
        assert slots[k + 1] == slots[1..][k];
      }
    }
  }

  lemma {:induction false} EarliestSweepEndsAt(now: int, slots: seq<BusySlot>)
    ensures EarliestSweep(now, slots) == now
         || exists k :: 0 <= k < |slots| && EarliestSweep(now, slots) == slots[k].end
    decreases slots
  {
    if slots != [] {
      var next := if Busy(slots[0], now) then slots[0].end else now;
      EarliestSweepEndsAt(next, slots[1..]);
      if k :| 0 <= k < |slots[1..]| && EarliestSweep(next, slots[1..]) == slots[1..][k].end {
        assert slots[k + 1] == slots[1..][k];
      }
    }
  }

  /**
   * Unless one slot happens to end exactly a pause after another, the result is the earliest free time
   * exactly if no slot pushes the present away, and then it is the present.
   */
  lemma EarliestIffNotPushed(now: int, slots: seq<BusySlot>)
    requires Sorted(slots)
    requires forall i, j :: 0 <= i < |slots| && 0 <= j < |slots| ==> slots[j].end != slots[i].end + PAUSE
    ensures EarliestFree(now, slots, Sweep(now, slots)) <==> forall k :: 0 <= k < |slots| ==> !Pushes(slots[k], now)
  {
    EarliestSweepIsEarliest(now, slots);
    SweepStays(now, slots);
    SweepFindsFree(now, slots);
    SweepEndsAt(now, slots);
    EarliestSweepEndsAt(now, slots);
  }

  /** After a single meeting the pause is skipped, although it is free. */
  lemma PauseIsSkipped(now: int, slot: BusySlot)
    requires Busy(slot, now)
    ensures Sweep(now, [slot]) == slot.end + 300_000_000_000 && !AnyBusy([slot], slot.end)
    ensures !EarliestFree(now, [slot], Sweep(now, [slot]))
  {
    assert [slot][1..] == [];
  }

  // Slots that start together can be sorted in several ways.

  /** Where one slot takes the candidate. */
  function Push(slot: BusySlot, candidate: int): int {
    if Pushes(slot, candidate) then slot.end + PAUSE else candidate
  }

  /** The slots start together and end at different times, but not more than a pause apart. */
  predicate Close(a: BusySlot, b: BusySlot) {
    a.start == b.start && a.end != b.end && a.end - b.end <= PAUSE && b.end - a.end <= PAUSE
  }

  /** The order of two slots that start together makes a difference exactly if both push and they are close. */
  lemma NeighboursIff(candidate: int, a: BusySlot, b: BusySlot)
    requires a.start == b.start
    ensures Push(b, Push(a, candidate)) != Push(a, Push(b, candidate))
       <==> Pushes(a, candidate) && Pushes(b, candidate) && Close(a, b)
  {
  }

  /** A slot that is not close to those before it, which start with it, can be swept first. */
  lemma {:induction false} SweepFirst(candidate: int, slots: seq<BusySlot>, k: nat)
    requires k < |slots|
    requires forall i :: 0 <= i < k ==> slots[i].start == slots[k].start && !Close(slots[i], slots[k])
    ensures Sweep(candidate, slots) == Sweep(Push(slots[k], candidate), slots[..k] + slots[k + 1..])
    decreases k
  {
    if k == 0 {
      assert slots[..0] + slots[1..] == slots[1..];
    } else {
      var x, y, rest := slots[k], slots[0], slots[1..k] + slots[k + 1..];
      SweepFirst(Push(y, candidate), slots[1..], k - 1);
      assert slots[1..][..k - 1] + slots[1..][k..] == rest;
      NeighboursIff(candidate, y, x);
      assert (slots[..k] + slots[k + 1..])[0] == y && (slots[..k] + slots[k + 1..])[1..] == rest;
    }
  }

  ghost predicate NoneClose(slots: seq<BusySlot>) {
    forall a, b :: a in slots && b in slots ==> !Close(a, b)
  }

  lemma WithoutSorted(slots: seq<BusySlot>, k: nat)
    requires k < |slots| && Sorted(slots)
    ensures Sorted(Others(slots, k))
  {
  }

  /** The first slot of one order can be swept first in the other. */
  lemma SameFirst(now: int, a: seq<BusySlot>, b: seq<BusySlot>, k: nat)
    requires a != [] && Sorted(a) && Sorted(b) && multiset(a) == multiset(b) && NoneClose(a)
    requires k < |b| && b[k] == a[0]
    ensures Sweep(now, b) == Sweep(Push(a[0], now), Others(b, k))
  {
    SameElements(a, b);
    forall i | 0 <= i < k
      ensures b[i].start == b[k].start && !Close(b[i], b[k])
    {
      assert b[i] in a;
    }
    SweepFirst(now, b, k);
  }

  /** Unless two slots are close, the result does not depend on how the sort leaves slots that start together. */
  lemma {:induction false} TiesDoNotMatter(now: int, a: seq<BusySlot>, b: seq<BusySlot>)
    requires Sorted(a) && Sorted(b) && multiset(a) == multiset(b) && NoneClose(a)
    ensures Sweep(now, a) == Sweep(now, b)
    decreases |a|
  {
    if a == [] {
      SameElements(a, b);
    } else {
      var k := TakeOutSame(a, b);
      SameFirst(now, a, b, k);
      WithoutSorted(b, k);
      TiesDoNotMatter(Push(a[0], now), a[1..], Others(b, k));
    }
  }

  /** Close slots have two orders, and the result can depend on which it is. */
  lemma TiesMatter()
    ensures var a, b := BusySlot(0, 10), BusySlot(0, 20);
            Sorted([a, b]) && Sorted([b, a]) && Sweep(0, [a, b]) != Sweep(0, [b, a])
  {
    var a, b := BusySlot(0, 10), BusySlot(0, 20);
    assert [a, b][1..] == [b] && [b, a][1..] == [a] && [a][1..] == [] && [b][1..] == [];
    assert Sweep(0, [a, b]) == Sweep(10 + PAUSE, [b]) == 10 + PAUSE;
    assert Sweep(0, [b, a]) == Sweep(20 + PAUSE, [a]) == 20 + PAUSE;
  }
}
