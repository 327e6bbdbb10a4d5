/** Choosing when to send. Times are UTC, in nanoseconds since 1970, a Thursday. */
module SendTimes {
  import opened Results

  const MINUTE := 60_000_000_000
  const HOUR := 3_600_000_000_000
  const DAY := 86_400_000_000_000

  /** Days count from Sunday. */
  function Weekday(t: int): (d: nat)
    ensures d < 7
  {
    (t / DAY + 4) % 7
  }

  function HourOf(t: int): (h: nat)
    ensures h < 24
  {
    t % DAY / HOUR
  }

  predicate IsOccurrence(t: int, day: nat, hour: nat) {
    Weekday(t) == day && t % DAY == hour * HOUR
  }

  /** The least time from the given one on that has this weekday and this exact hour. */
  ghost predicate FirstOccurrence(from: int, day: nat, hour: nat, t: int) {
    && from <= t && IsOccurrence(t, day, hour)
    && forall u :: from <= u < t ==> !IsOccurrence(u, day, hour)
  }

  function DaysLeft(t: int, day: nat): (n: nat)
    ensures n < 7
  {
    (day - Weekday(t)) % 7
  }

  lemma DayLater(t: int)
    ensures (t + DAY) / DAY == t / DAY + 1 && (t + DAY) % DAY == t % DAY
  {
  }

  lemma RemainderLater(d: int)
    ensures (d + 1) % 7 == if d % 7 == 6 then 0 else d % 7 + 1
  {
  }

  lemma DaysBetween(w: nat, day: nat)
    requires w < 7 && day < 7
    ensures (day - w) % 7 == if day < w then day - w + 7 else day - w
  {
  }

  /** The arithmetic of the weekdays, for the day number d. */
  lemma WeekdayLater(d: int, day: nat)
    requires day < 7
    ensures (d + 1 + 4) % 7 == ((d + 4) % 7 + 1) % 7
    ensures (day - (d + 4) % 7) % 7 == 0 <==> (d + 4) % 7 == day
    ensures (d + 4) % 7 != day ==> (day - (d + 1 + 4) % 7) % 7 == (day - (d + 4) % 7) % 7 - 1
  {
    var w, w' := (d + 4) % 7, (d + 1 + 4) % 7;
    RemainderLater(d + 4);
    DaysBetween(w, day);
    DaysBetween(w', day);
  }

  lemma NextDay(t: int, day: nat)
    requires day < 7
    ensures (t + DAY) % DAY == t % DAY && Weekday(t + DAY) == (Weekday(t) + 1) % 7
    ensures DaysLeft(t, day) == 0 <==> Weekday(t) == day
    ensures Weekday(t) != day ==> DaysLeft(t + DAY, day) == DaysLeft(t, day) - 1
  {
    DayLater(t);
    WeekdayLater(t / DAY, day);
  }

  /** Within a day there is one time with a given time of day. */
  lemma SameTimeOfDay(t: int, u: int)
    requires t <= u < t + DAY && u % DAY == t % DAY
    ensures u == t
  {
    assert t == t / DAY * DAY + t % DAY && u == u / DAY * DAY + u % DAY;
  }

  ghost predicate NoneBetween(from: int, to: int, day: nat, hour: nat) {
    forall u :: from <= u < to ==> !IsOccurrence(u, day, hour)
  }

  /** If the search does not end at this time, it does not end within a day, either. */
  lemma NoneInDay(from: int, t: int, day: nat, hour: nat)
    requires NoneBetween(from, t, day, hour) && t % DAY == hour * HOUR && (t < from || Weekday(t) != day)
    ensures NoneBetween(from, t + DAY, day, hour)
  {
    forall u | from <= u < t + DAY
      ensures !IsOccurrence(u, day, hour)
    {
      if u >= t && u % DAY == hour * HOUR {
        SameTimeOfDay(t, u);
      }
    }
  }

  lemma SameDay(t: int, hour: nat)
    requires hour < 24
    ensures var u := t - t % DAY + hour * HOUR; u % DAY == hour * HOUR && t - DAY < u < t + DAY
  {
    assert t - t % DAY == t / DAY * DAY;
    assert (t / DAY * DAY + hour * HOUR) / DAY == t / DAY;
  }

  /** The candidate is at the hour, not past the first occurrence, and near enough. */
  ghost predicate Searching(from: int, t: int, day: nat, hour: nat)
    requires day < 7
  {
    && t % DAY == hour * HOUR && t > from - DAY && NoneBetween(from, t, day, hour)
    && (t < from + DAY || t + DaysLeft(t, day) * DAY < from + 7 * DAY)
  }

  function SearchesLeft(from: int, t: int, day: nat): nat
    requires day < 7
  {
    if t < from then 7 else DaysLeft(t, day)
  }

  lemma SearchGoesOn(from: int, t: int, day: nat, hour: nat)
    requires day < 7 && hour < 24 && Searching(from, t, day, hour) && (t < from || Weekday(t) != day)
    ensures Searching(from, t + DAY, day, hour)
    ensures t >= from ==> DaysLeft(t + DAY, day) < DaysLeft(t, day)
    ensures SearchesLeft(from, t + DAY, day) < SearchesLeft(from, t, day)
  {
    NextDay(t, day);
    NoneInDay(from, t, day, hour);
  }

  lemma SearchEnds(from: int, t: int, day: nat, hour: nat)
    requires day < 7 && hour < 24 && Searching(from, t, day, hour) && t >= from && Weekday(t) == day
    ensures FirstOccurrence(from, day, hour, t) && t < from + 7 * DAY
  {
    NextDay(t, day);
  }

  method NextOccurrence(from: int, day: nat, hour: nat) returns (candidate: int)
    requires day < 7 && hour < 24
    ensures FirstOccurrence(from, day, hour, candidate)
    ensures candidate < from + 7 * DAY
  {
    candidate := from - from % DAY + hour * HOUR;
    SameDay(from, hour);
    while candidate < from || Weekday(candidate) != day
      invariant Searching(from, candidate, day, hour)
      decreases SearchesLeft(from, candidate, day)
    {
      SearchGoesOn(from, candidate, day, hour);
      candidate := candidate + DAY;
      if Weekday(candidate) == day && candidate > from {
        break;
      }
    }
    SearchEnds(from, candidate, day, hour);
  }

  // The calendar, in numbers.

  /** An occurrence is on the hour, on its weekday and in its hour of the day. */
  lemma OccurrenceInSlot(t: int, day: nat, hour: nat)
    requires IsOccurrence(t, day, hour) && hour < 24
    ensures Weekday(t) == day && HourOf(t) == hour && t % 3_600_000_000_000 == 0
  {
    OnTheHour(t / DAY * 24 + hour);
    OnTheHour(hour);
    assert t == t / DAY * DAY + t % DAY;
  }

  lemma OnTheHour(n: int)
    ensures n * HOUR % HOUR == 0 && n * HOUR / HOUR == n
  {
  }

  /** The hour of the day counts full hours since midnight. */
  lemma HourOfIff(t: int, hour: nat)
    ensures HourOf(t) == hour <==>
              hour * 3_600_000_000_000 <= t % 86_400_000_000_000 < hour * 3_600_000_000_000 + 3_600_000_000_000
  {
  }

  /** 1970 began on a Thursday, and 2024 on a Monday; a weekday lasts for a day, and the next one follows. */
  lemma Weekdays(t: int)
    ensures Weekday(0) == 4 && Weekday(1_704_067_200_000_000_000) == 1
    ensures Weekday(t) == Weekday(t - t % 86_400_000_000_000)
    ensures Weekday(t + 86_400_000_000_000) == if Weekday(t) == 6 then 0 else Weekday(t) + 1
  {
    DayLater(t);
    RemainderLater(t / DAY + 4);
    assert (t - t % DAY) / DAY == t / DAY;
  }

  // The profile of a contact.

  datatype MessageRecord = MessageRecord(sentAt: Option<int>, repliedAt: Option<int>, hasReply: bool)

  /** A weekday or an hour of the day. */
  datatype Slots = Hours | Days

  function SlotCount(kind: Slots): nat {
    if kind.Hours? then 24 else 7
  }

  function SlotOf(t: int, kind: Slots): (slot: nat)
    ensures slot < SlotCount(kind)
  {
    if kind.Hours? then HourOf(t) else Weekday(t)
  }

  /** The reply came within three days. */
  predicate CountsAsReply(r: MessageRecord) {
    r.sentAt.Some? && r.hasReply && r.repliedAt.Some? && 0 < r.repliedAt.value - r.sentAt.value < 72 * HOUR
  }

  /** The record is of a message sent in the slot, and replied to if that is asked. */
  predicate InSlot(r: MessageRecord, kind: Slots, slot: nat, replied: bool) {
    r.sentAt.Some? && SlotOf(r.sentAt.value, kind) == slot && (replied ==> CountsAsReply(r))
  }

  /** What counts in a slot: messages sent in it, and replies that came later, but less than three days later. */
  lemma InSlotIff(r: MessageRecord, kind: Slots, slot: nat)
    ensures InSlot(r, kind, slot, false) <==>
              r.sentAt.Some? && slot == if kind.Hours? then HourOf(r.sentAt.value) else Weekday(r.sentAt.value)
    ensures InSlot(r, kind, slot, true) <==>
              && InSlot(r, kind, slot, false) && r.hasReply && r.repliedAt.Some?
              && r.sentAt.value < r.repliedAt.value < r.sentAt.value + 259_200_000_000_000
  {
  }

  /** Where the counted records are. */
  function Positions(records: seq<MessageRecord>, kind: Slots, slot: nat, replied: bool): set<nat> {
    set i | 0 <= i < |records| && InSlot(records[i], kind, slot, replied)
  }

  lemma PositionsNext(records: seq<MessageRecord>, kind: Slots, slot: nat, replied: bool)
    requires records != []
    ensures var n := |records| - 1;
            var before := Positions(records[..n], kind, slot, replied);
            n !in before && Positions(records, kind, slot, replied)
                         == before + if InSlot(records[n], kind, slot, replied) then {n} else {}
  {
  }

  /** The count is the number of records that count. */
  lemma {:induction false} CountIsCardinality(records: seq<MessageRecord>, kind: Slots, slot: nat, replied: bool)
    ensures CountIn(records, kind, slot, replied) == |Positions(records, kind, slot, replied)|
  {
    if records != [] {
      PositionsNext(records, kind, slot, replied);
      CountIsCardinality(records[..|records| - 1], kind, slot, replied);
    }
  }

  /** The messages sent in a slot, or those of them that were replied to. */
  function CountIn(records: seq<MessageRecord>, kind: Slots, slot: nat, replied: bool): nat {
    if records == [] then 0
    else
      var n := CountIn(records[..|records| - 1], kind, slot, replied);
      if InSlot(records[|records| - 1], kind, slot, replied) then n + 1 else n
  }

  lemma {:induction false} RepliesAmongSent(records: seq<MessageRecord>, kind: Slots, slot: nat)
    ensures CountIn(records, kind, slot, true) <= CountIn(records, kind, slot, false)
  {
    if records != [] {
      RepliesAmongSent(records[..|records| - 1], kind, slot);
    }
  }

  lemma Quotient(a: real, w: real)
    requires 0.0 <= a <= w && w > 0.0
    ensures a / w * w == a && 0.0 <= a / w <= 1.0
  {
    var q := a / w;
    assert q * w == a;
    assert q < 0.0 ==> q * w < 0.0;
    assert q > 1.0 ==> q * w > w;
  }

  function Share(part: nat, whole: nat): (q: real)
    requires part <= whole
    ensures 0.0 <= q <= 1.0
    ensures whole == 0 ==> q == 0.0
    ensures whole > 0 ==> q * whole as real == part as real
  {
    if whole == 0 then 0.0
    else
      Quotient(part as real, whole as real);
      part as real / whole as real
  }

  /** The share of a slot's messages that were replied to. */
  function ReplyRate(records: seq<MessageRecord>, kind: Slots, slot: nat): (q: real)
    ensures 0.0 <= q <= 1.0
  {
    RepliesAmongSent(records, kind, slot);
    Share(CountIn(records, kind, slot, true), CountIn(records, kind, slot, false))
  }

  /** The first slot with the highest weight. */
  ghost predicate IsBest(weights: seq<real>, best: nat) {
    && best < |weights|
    && (forall s :: 0 <= s < |weights| ==> weights[s] <= weights[best])
    && (forall s :: 0 <= s < best ==> weights[s] < weights[best])
  }

  /** No slot has more replies for its messages than this one, and none before it as many. */
  ghost predicate HighestRate(records: seq<MessageRecord>, kind: Slots, best: nat) {
    && best < SlotCount(kind)
    && var sent, replied := CountIn(records, kind, best, false), CountIn(records, kind, best, true);
    && (forall s :: 0 <= s < SlotCount(kind) ==>
          CountIn(records, kind, s, true) * sent <= replied * CountIn(records, kind, s, false))
    && (forall s :: 0 <= s < best && sent > 0 && CountIn(records, kind, s, false) > 0 ==>
          CountIn(records, kind, s, true) * sent < replied * CountIn(records, kind, s, false))
  }

  lemma MulMonotone(p: real, q: real, z: real)
    requires z > 0.0
    ensures p <= q ==> p * z <= q * z
    ensures p < q ==> p * z < q * z
  {
  }

  lemma Products(p: real, x: real, y: real)
    ensures (p * x) * y == p * (x * y) && (p * y) * x == p * (x * y)
    ensures x > 0.0 && y > 0.0 ==> x * y > 0.0
  {
  }

  lemma IntProduct(a: nat, n: nat)
    ensures (a * n) as real == a as real * n as real
  {
  }

  /** Comparing shares is comparing the products of parts and wholes. */
  lemma CompareShares(a: nat, m: nat, b: nat, n: nat)
    requires a <= m && b <= n
    ensures Share(a, m) <= Share(b, n) ==> a * n <= b * m
    ensures m > 0 && n > 0 && Share(a, m) < Share(b, n) ==> a * n < b * m
  {
    if m > 0 && n > 0 {
      var p, q, x, y := Share(a, m), Share(b, n), m as real, n as real;
      Products(p, x, y);
      Products(q, x, y);
      MulMonotone(p, q, x * y);
      IntProduct(a, n);
      IntProduct(b, m);
    } else if n == 0 {
      assert b == 0;
    } else {
      assert a == 0;
    }
  }

  lemma BestHasHighestRate(records: seq<MessageRecord>, kind: Slots, weights: seq<real>, best: nat)
    requires |weights| == SlotCount(kind) && IsBest(weights, best)
    requires forall s :: 0 <= s < SlotCount(kind) ==> weights[s] == ReplyRate(records, kind, s)
    ensures HighestRate(records, kind, best)
  {
    var sent, replied := CountIn(records, kind, best, false), CountIn(records, kind, best, true);
    forall s | 0 <= s < SlotCount(kind)
      ensures CountIn(records, kind, s, true) * sent <= replied * CountIn(records, kind, s, false)
      ensures s < best && sent > 0 && CountIn(records, kind, s, false) > 0 ==>
                CountIn(records, kind, s, true) * sent < replied * CountIn(records, kind, s, false)
    {
      RepliesAmongSent(records, kind, s);
      RepliesAmongSent(records, kind, best);
      assert weights[s] == ReplyRate(records, kind, s) && weights[best] == ReplyRate(records, kind, best);
      CompareShares(CountIn(records, kind, s, true), CountIn(records, kind, s, false),
                    CountIn(records, kind, best, true), CountIn(records, kind, best, false));
    }
  }

  lemma CountNext(records: seq<MessageRecord>, i: nat, kind: Slots, slot: nat, replied: bool)
    requires i < |records|
    ensures CountIn(records[..i + 1], kind, slot, replied)
         == CountIn(records[..i], kind, slot, replied) + if InSlot(records[i], kind, slot, replied) then 1 else 0
  {
    assert records[..i + 1][..i] == records[..i];
  }

  method CountSlots(records: seq<MessageRecord>, kind: Slots) returns (counts: array<nat>, replies: array<nat>)
    ensures counts.Length == replies.Length == SlotCount(kind)
    ensures forall s :: 0 <= s < SlotCount(kind) ==>
              counts[s] == CountIn(records, kind, s, false) && replies[s] == CountIn(records, kind, s, true)
  {
    counts, replies := new nat[SlotCount(kind)](_ => 0), new nat[SlotCount(kind)](_ => 0);
    for i := 0 to |records|
      invariant forall s :: 0 <= s < SlotCount(kind) ==>
                  && counts[s] == CountIn(records[..i], kind, s, false)
                  && replies[s] == CountIn(records[..i], kind, s, true)
    {
      var r := records[i];
      forall s | 0 <= s < SlotCount(kind)
        ensures CountIn(records[..i + 1], kind, s, false)
             == CountIn(records[..i], kind, s, false) + if InSlot(r, kind, s, false) then 1 else 0
        ensures CountIn(records[..i + 1], kind, s, true)
             == CountIn(records[..i], kind, s, true) + if InSlot(r, kind, s, true) then 1 else 0
      {
        CountNext(records, i, kind, s, false);
        CountNext(records, i, kind, s, true);
      }
      if r.sentAt.None? {
        continue;
      }
      var slot := SlotOf(r.sentAt.value, kind);
      counts[slot] := counts[slot] + 1;
      if r.hasReply && r.repliedAt.Some? {
        var wait := r.repliedAt.value - r.sentAt.value;
        if wait > 0 && wait < 72 * HOUR {
          replies[slot] := replies[slot] + 1;
        }
      }
    }
    assert records[..|records|] == records;
  }

  method Weigh(counts: array<nat>, replies: array<nat>) returns (weights: seq<real>, best: nat)
    requires counts.Length == replies.Length > 0
    requires forall s :: 0 <= s < counts.Length ==> replies[s] <= counts[s]
    ensures |weights| == counts.Length && IsBest(weights, best)
    ensures forall s :: 0 <= s < counts.Length ==> weights[s] == Share(replies[s], counts[s])
    ensures forall s :: 0 <= s < counts.Length ==>
              if counts[s] == 0 then weights[s] == 0.0 else weights[s] * counts[s] as real == replies[s] as real
  {
    var bestWeight := 0.0;
    weights, best := [], 0;
    for h := 0 to counts.Length
      invariant |weights| == h && forall s :: 0 <= s < h ==> weights[s] == Share(replies[s], counts[s]) <= bestWeight
      invariant bestWeight >= 0.0 && (best == 0 || best < h)
      invariant if best < h then bestWeight == weights[best] else bestWeight == 0.0
      invariant forall s :: 0 <= s < best ==> weights[s] < bestWeight
    {
      var w := 0.0;
      if counts[h] > 0 {
        w := Share(replies[h], counts[h]);
        if w > bestWeight {
          bestWeight, best := w, h;
        }
      }
      assert w == Share(replies[h], counts[h]);
      weights := weights + [w];
    }
  }

  /** The weight of every slot, and the best of them. */
  method BestSlot(records: seq<MessageRecord>, kind: Slots) returns (weights: seq<real>, best: nat)
    ensures |weights| == SlotCount(kind) && IsBest(weights, best)
    ensures forall s :: 0 <= s < SlotCount(kind) ==> weights[s] == ReplyRate(records, kind, s)
    ensures HighestRate(records, kind, best)
  {
    var counts, replies := CountSlots(records, kind);
    forall s | 0 <= s < SlotCount(kind)
      ensures replies[s] <= counts[s]
    {
      RepliesAmongSent(records, kind, s);
    }
    weights, best := Weigh(counts, replies);
    BestHasHighestRate(records, kind, weights, best);
  }

  datatype Profile = Profile(
    sampleCount: nat, hourWeights: seq<real>, dayWeights: seq<real>, bestSendHour: nat, bestSendDay: nat)

  ghost predicate ProfileOf(p: Profile, records: seq<MessageRecord>) {
    if |records| < 3 then p == Profile(0, seq(24, _ => 0.0), seq(7, _ => 0.0), 0, 0)
    else
      && p.sampleCount == |records|
      && |p.hourWeights| == 24 && (forall h :: 0 <= h < 24 ==> p.hourWeights[h] == ReplyRate(records, Hours, h))
      && |p.dayWeights| == 7 && (forall d :: 0 <= d < 7 ==> p.dayWeights[d] == ReplyRate(records, Days, d))
      && IsBest(p.hourWeights, p.bestSendHour) && IsBest(p.dayWeights, p.bestSendDay)
  }

  method BuildProfile(records: seq<MessageRecord>) returns (p: Profile)
    ensures ProfileOf(p, records) && Usable(p)
    ensures p.sampleCount == if |records| < 3 then 0 else |records|
    ensures |records| >= 3 ==> HighestRate(records, Hours, p.bestSendHour) && HighestRate(records, Days, p.bestSendDay)
  {
    if |records| < 3 {
      return Profile(0, seq(24, _ => 0.0), seq(7, _ => 0.0), 0, 0);
    }
    var hourWeights, bestHour := BestSlot(records, Hours);
    var dayWeights, bestDay := BestSlot(records, Days);
    return Profile(|records|, hourWeights, dayWeights, bestHour, bestDay);
  }

  /** Every profile that BuildProfile makes names an hour and a weekday. */
  predicate Usable(p: Profile) {
    p.bestSendHour < 24 && p.bestSendDay < 7
  }

  /** The time is now or the first best slot, and less than a week away. */
  method SuggestSendTime(p: Profile, now: int) returns (recommendedAt: int)
    requires Usable(p)
    ensures now <= recommendedAt < now + 604_800_000_000_000
    ensures p.sampleCount < 3 ==> recommendedAt == now
    ensures p.sampleCount >= 3 ==> forall t :: FirstOccurrence(now, p.bestSendDay, p.bestSendHour, t) ==>
              recommendedAt == if t - now < 1_800_000_000_000 then now else t
    ensures recommendedAt != now ==>
              && Weekday(recommendedAt) == p.bestSendDay && HourOf(recommendedAt) == p.bestSendHour
              && recommendedAt % 3_600_000_000_000 == 0
  {
    if p.sampleCount < 3 {
      return now;
    }
    var target := NextOccurrence(now, p.bestSendDay, p.bestSendHour);
    if target - now < 30 * MINUTE {
      return now;
    }
    OccurrenceInSlot(target, p.bestSendDay, p.bestSendHour);
    return target;
  }
}
