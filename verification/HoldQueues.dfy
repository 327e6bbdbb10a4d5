/** The queue of messages that wait for their recipient to be present. Times are in nanoseconds. */
module HoldQueues {
  const HOUR := 3_600_000_000_000
  const DEFAULT_WAIT := 24 * HOUR
  const DEFAULT_SCORE := 0.6

  datatype HeldMessage = HeldMessage(id: string, recipient: string, queuedAt: int, maxWait: int, minScore: real)

  function WithDefaults(m: HeldMessage): HeldMessage {
    m.(maxWait := if m.maxWait == 0 then DEFAULT_WAIT else m.maxWait,
       minScore := if m.minScore == 0.0 then DEFAULT_SCORE else m.minScore)
  }

  /** The last presence reports, as scores by recipient. */
  type Scores = map<string, real>

  predicate Overdue(m: HeldMessage, now: int) {
    now > m.queuedAt + m.maxWait
  }

  predicate Releases(m: HeldMessage, now: int, scores: Scores) {
    Overdue(m, now) || (m.recipient in scores && scores[m.recipient] >= m.minScore)
  }

  /** The messages that are released, or those that are not, in their order. */
  function Select(ms: seq<HeldMessage>, now: int, scores: Scores, released: bool): seq<HeldMessage> {
    if ms == [] then []
    else
      var last := ms[|ms| - 1];
      Select(ms[..|ms| - 1], now, scores, released) + (if Releases(last, now, scores) == released then [last] else [])
  }

  lemma SelectNext(ms: seq<HeldMessage>, i: nat, now: int, scores: Scores, released: bool)
    requires i < |ms|
    ensures Select(ms[..i + 1], now, scores, released)
         == Select(ms[..i], now, scores, released) + (if Releases(ms[i], now, scores) == released then [ms[i]] else [])
  {
    assert ms[..i + 1][..i] == ms[..i];
  }

  class HoldQueue {
    /** The slice is the first count elements of its backing array. */
    var held: array<HeldMessage>
    var count: nat

    ghost predicate Valid()
      reads this
    {
      count <= held.Length
    }

    ghost function Contents(): seq<HeldMessage>
      requires Valid()
      reads this, held
    {
      held[..count]
    }

    constructor ()
      ensures Valid() && fresh(held) && Contents() == []
    {
      held := new HeldMessage[0];
      count := 0;
    }

    method Hold(m: HeldMessage)
      requires Valid()
      modifies this, held
      ensures Valid() && (held == old(held) || fresh(held))
      ensures Contents() == old(Contents()) + [WithDefaults(m)]
      ensures var stored := Contents()[|old(Contents())|];
              && stored.id == m.id && stored.recipient == m.recipient && stored.queuedAt == m.queuedAt
              && stored.maxWait == (if m.maxWait == 0 then 86_400_000_000_000 else m.maxWait)
              && stored.minScore == if m.minScore == 0.0 then 0.6 else m.minScore
    {
      var message := m;
      if message.maxWait == 0 {
        message := message.(maxWait := DEFAULT_WAIT);
      }
      if message.minScore == 0.0 {
        message := message.(minScore := DEFAULT_SCORE);
      }
      if count == held.Length {
        var larger := new HeldMessage[2 * held.Length + 1](_ => message);
        for i := 0 to count
          invariant count == old(count) && held == old(held) && held[..] == old(held[..])
          invariant larger[..i] == held[..i]
        {
          larger[i] := held[i];
        }
        held := larger;
      }
      held[count] := message;
      count := count + 1;
    }

    /** The first i messages are decided; those kept are at the front, and the rest has not been touched. */
    ghost predicate Compacted(before: seq<HeldMessage>, i: nat, remaining: nat, toSend: seq<HeldMessage>,
                              now: int, scores: Scores)
      reads this, held
    {
      && remaining <= i <= |before| == count <= held.Length
      && (forall k :: i <= k < count ==> held[k] == before[k])
      && held[..remaining] == Select(before[..i], now, scores, false)
      && toSend == Select(before[..i], now, scores, true)
    }

    /** Decides message i. */
    method Decide(i: nat, remaining: nat, toSend: seq<HeldMessage>, now: int, scores: Scores,
                  ghost before: seq<HeldMessage>)
        returns (remaining': nat, toSend': seq<HeldMessage>)
      requires i < count && Compacted(before, i, remaining, toSend, now, scores)
      modifies held
      ensures Compacted(before, i + 1, remaining', toSend', now, scores)
    {
      var m := held[i];
      remaining', toSend' := remaining, toSend;
      SelectNext(before, i, now, scores, false);
      SelectNext(before, i, now, scores, true);
      var overdue := now > m.queuedAt + m.maxWait;
      if overdue || (m.recipient in scores && scores[m.recipient] >= m.minScore) {
        toSend' := toSend + [m];
      } else {
        held[remaining] := m;
        remaining' := remaining + 1;
        assert held[..remaining'] == old(held[..remaining]) + [m];
      }
    }

    /** Keeps the messages that must still wait, in the array they are read from, and returns the others. */
    method Dispatch(now: int, scores: Scores) returns (toSend: seq<HeldMessage>)
      requires Valid()
      modifies this`count, held
      ensures Valid() && held == old(held)
      ensures Contents() == Select(old(Contents()), now, scores, false)
      ensures toSend == Select(old(Contents()), now, scores, true)
    {
      ghost var before := held[..count];
      var remaining := 0;
      toSend := [];
      for i := 0 to count
        invariant count == old(count) && Compacted(before, i, remaining, toSend, now, scores)
      {
        remaining, toSend := Decide(i, remaining, toSend, now, scores, before);
      }
      assert before[..count] == before;
      count := remaining;
    }
  }

  // Runs.

  datatype Event = Held(message: HeldMessage) | Dispatched(now: int, scores: Scores)

  datatype Sending = Sending(message: HeldMessage, at: int, scores: Scores)

  datatype State = State(held: seq<HeldMessage>, sent: seq<Sending>)

  function Sendings(ms: seq<HeldMessage>, at: int, scores: Scores): (r: seq<Sending>)
    ensures |r| == |ms| && forall i :: 0 <= i < |r| ==> r[i] == Sending(ms[i], at, scores)
  {
    seq(|ms|, i requires 0 <= i < |ms| => Sending(ms[i], at, scores))
  }

  function Next(s: State, e: Event): State {
    match e
    case Held(m) => s.(held := s.held + [WithDefaults(m)])
    case Dispatched(now, scores) =>
      State(Select(s.held, now, scores, false), s.sent + Sendings(Select(s.held, now, scores, true), now, scores))
  }

  function After(events: seq<Event>): State {
    if events == [] then State([], []) else Next(After(events[..|events| - 1]), events[|events| - 1])
  }

  /** Every message that was ever held, with its defaults. */
  function AllHeld(events: seq<Event>): multiset<HeldMessage> {
    if events == [] then multiset{}
    else
      var last := events[|events| - 1];
      AllHeld(events[..|events| - 1]) + (if last.Held? then multiset{WithDefaults(last.message)} else multiset{})
  }

  function Messages(sent: seq<Sending>): (ms: seq<HeldMessage>)
    ensures |ms| == |sent| && forall i :: 0 <= i < |ms| ==> ms[i] == sent[i].message
  {
    seq(|sent|, i requires 0 <= i < |sent| => sent[i].message)
  }

  lemma {:induction false} SelectSplits(ms: seq<HeldMessage>, now: int, scores: Scores)
    ensures multiset(Select(ms, now, scores, false)) + multiset(Select(ms, now, scores, true)) == multiset(ms)
  {
    if ms != [] {
      var init := ms[..|ms| - 1];
      assert ms == init + [ms[|ms| - 1]];
      SelectSplits(init, now, scores);
    }
  }

  lemma {:induction false} SelectMember(ms: seq<HeldMessage>, now: int, scores: Scores, released: bool, m: HeldMessage)
    ensures m in Select(ms, now, scores, released) <==> m in ms && Releases(m, now, scores) == released
    ensures Releases(m, now, scores) <==>
              || now > m.queuedAt + m.maxWait
              || (m.recipient in scores && scores[m.recipient] >= m.minScore)
  {
    if ms != [] {
      assert ms == ms[..|ms| - 1] + [ms[|ms| - 1]];
      SelectMember(ms[..|ms| - 1], now, scores, released, m);
    }
  }

  function Accounted(s: State): multiset<HeldMessage> {
    multiset(s.held) + multiset(Messages(s.sent))
  }

  lemma MessagesAppend(sent: seq<Sending>, out: seq<HeldMessage>, now: int, scores: Scores)
    ensures Messages(sent + Sendings(out, now, scores)) == Messages(sent) + out
  {
  }

  lemma StepConserves(s: State, e: Event)
    ensures Accounted(Next(s, e)) == Accounted(s) + (if e.Held? then multiset{WithDefaults(e.message)} else multiset{})
  {
    match e
    case Held(m) =>
    case Dispatched(now, scores) =>
      SelectSplits(s.held, now, scores);
      MessagesAppend(s.sent, Select(s.held, now, scores, true), now, scores);
  }

  /** No message is lost, duplicated or changed: those held so far are exactly those waiting and those sent. */
  lemma {:induction false} Conservation(events: seq<Event>)
    ensures multiset(After(events).held) + multiset(Messages(After(events).sent)) == AllHeld(events)
  {
    if events != [] {
      var init := events[..|events| - 1];
      Conservation(init);
      StepConserves(After(init), events[|events| - 1]);
    }
  }

  /** Nothing is sent before its time: each sending was overdue or its recipient present enough. */
  lemma {:induction false} SentForAReason(events: seq<Event>, i: nat)
    requires i < |After(events).sent|
    ensures var x := After(events).sent[i];
            || x.at > x.message.queuedAt + x.message.maxWait
            || (x.message.recipient in x.scores && x.scores[x.message.recipient] >= x.message.minScore)
  {
    if events != [] {
      var init := events[..|events| - 1];
      if i < |After(init).sent| {
        SentForAReason(init, i);
      } else {
        var e := events[|events| - 1];
        var out := Select(After(init).held, e.now, e.scores, true);
        var k := i - |After(init).sent|;
        assert out[k] in out;
        SelectMember(After(init).held, e.now, e.scores, true, out[k]);
      }
    }
  }

  /** A dispatch sends every message that is overdue or whose recipient is present enough, and no other waits on. */
  lemma DispatchSendsOverdue(events: seq<Event>, now: int, scores: Scores, m: HeldMessage)
    ensures m in After(events + [Dispatched(now, scores)]).held ==>
              && m in After(events).held && now <= m.queuedAt + m.maxWait
              && (m.recipient in scores ==> scores[m.recipient] < m.minScore)
    ensures m in After(events).held && now > m.queuedAt + m.maxWait ==>
              Sending(m, now, scores) in After(events + [Dispatched(now, scores)]).sent
    ensures m in After(events).held && m.recipient in scores && scores[m.recipient] >= m.minScore ==>
              Sending(m, now, scores) in After(events + [Dispatched(now, scores)]).sent
  {
    var s := After(events);
    var all := events + [Dispatched(now, scores)];
    assert all[..|all| - 1] == events;
    SelectMember(s.held, now, scores, false, m);
    SelectMember(s.held, now, scores, true, m);
    var out := Select(s.held, now, scores, true);
    if m in out {
      var k :| 0 <= k < |out| && out[k] == m;
      assert After(all).sent[|s.sent| + k] == Sending(m, now, scores);
    }
  }

  /** The message is as it was held, with a wait of a day or a score of 0.6 where none was given. */
  ghost predicate AsHeld(x: HeldMessage, m: HeldMessage) {
    && x.id == m.id && x.recipient == m.recipient && x.queuedAt == m.queuedAt
    && (if m.maxWait == 0 then x.maxWait == 86_400_000_000_000 else x.maxWait == m.maxWait)
    && (if m.minScore == 0.0 then x.minScore == 0.6 else x.minScore == m.minScore)
  }

  lemma {:induction false} HeldBefore(events: seq<Event>, x: HeldMessage) returns (i: nat)
    requires x in AllHeld(events)
    ensures i < |events| && events[i].Held? && AsHeld(x, events[i].message)
  {
    var n := |events| - 1;
    if events[n].Held? && x == WithDefaults(events[n].message) {
      i := n;
    } else {
      i := HeldBefore(events[..n], x);
    }
  }

  /** Whatever waits or was sent in a run was held in it, with what it was given. */
  lemma WaitingAsHeld(events: seq<Event>, x: HeldMessage) returns (i: nat)
    requires x in After(events).held || exists k :: 0 <= k < |After(events).sent| && After(events).sent[k].message == x
    ensures i < |events| && events[i].Held? && AsHeld(x, events[i].message)
  {
    Conservation(events);
    if x in After(events).held {
      assert x in multiset(After(events).held);
    } else {
      var k :| 0 <= k < |After(events).sent| && After(events).sent[k].message == x;
      assert Messages(After(events).sent)[k] == x;
      assert x in multiset(Messages(After(events).sent));
    }
    i := HeldBefore(events, x);
  }
}
