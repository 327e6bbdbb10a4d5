/** The SMTP proxy's sessions and the gRPC service, which share one set of counters. */
module SmtpSessions {
  import opened MailData
  import opened MailFilter
  import TextLines

  /** The position of the first c in the line from position i on, or -1. */
  function Index(line: string, c: char, i: nat): (r: int)
    requires i <= |line|
    ensures r == -1 || (i <= r < |line| && line[r] == c)
    ensures forall k :: i <= k < (if r == -1 then |line| else r) ==> line[k] != c
    decreases |line| - i
  {
    if i == |line| then -1 else if line[i] == c then i else Index(line, c, i + 1)
  }

  /** The text between the first < and the first >; slicing panics if they come in the other order. */
  datatype Address = Missing | Reversed | Found(address: string)

  function Bracketed(line: string): Address {
    var start, end := Index(line, '<', 0), Index(line, '>', 0);
    if start == -1 || end == -1 then Missing
    else if start + 1 > end then Reversed
    else Found(line[start + 1..end])
  }

  /** What running the script on a message comes to. */
  datatype ScriptResult = ScriptFails | Acts(actions: seq<string>)

  /** input is what the client sends after the command; relayed says whether forwarding upstream succeeds. */
  datatype Command =
    | Mail(line: string)
    | Rcpt(line: string)
    | Data(input: string, script: ScriptResult, relayed: bool)
    | Rset
    | Other

  datatype Reply =
    | Ok250 | Syntax501 | BadSequence503 | Accepted250 | Temporary450 | Rejected550(reason: string)
    | Silent | Panicked

  datatype Session = Session(from: string, recipients: seq<string>, data: string)

  const EMPTY := Session("", [], "")

  datatype Stats = Stats(processed: nat, accepted: nat, rejected: nat, bytes: nat)

  function Tally(t: Stats, accepted: bool, bytes: nat): Stats {
    var a, r := if accepted then 1 else 0, if accepted then 0 else 1;
    Stats(t.processed + 1, t.accepted + a, t.rejected + r, t.bytes + bytes)
  }

  function Judge(script: ScriptResult): Decision {
    match script
    case ScriptFails => Decision(false, "Script execution error")
    case Acts(actions) => SessionDecision(actions)
  }

  datatype StepResult = StepResult(session: Session, stats: Stats, reply: Reply)

  /** One command of a session. */
  function SessionStep(s: Session, t: Stats, upstream: bool, cmd: Command): StepResult {
    match cmd
    case Mail(line) =>
      (match Bracketed(line)
       case Missing => StepResult(s, t, Syntax501)
       case Reversed => StepResult(s, t, Panicked)
       case Found(address) => StepResult(s.(from := address), t, Ok250))
    case Rcpt(line) =>
      (match Bracketed(line)
       case Missing => StepResult(s, t, Syntax501)
       case Reversed => StepResult(s, t, Panicked)
       case Found(address) => StepResult(s.(recipients := s.recipients + [address]), t, Ok250))
    case Rset => StepResult(EMPTY, t, Ok250)
    case Other => StepResult(s, t, Silent)
    case Data(input, script, relayed) =>
      if s.from == "" || s.recipients == [] then StepResult(s, t, BadSequence503)
      else
        match ReadData(input, "")
        case Broken => StepResult(s, t, Silent)
        case Received(data, _) =>
          var d := Judge(script);
          var t' := Tally(t, d.accepted, |data|);
          if !d.accepted then StepResult(EMPTY, t', Rejected550(d.reason))
          else if upstream && !relayed then StepResult(s.(data := data), t', Temporary450)
          else StepResult(EMPTY, t', Accepted250)
  }

  class ProxyStats {
    var counters: Stats

    constructor ()
      ensures counters == Stats(0, 0, 0, 0)
    {
      counters := Stats(0, 0, 0, 0);
    }

    method Count(accepted: bool, bytes: nat)
      modifies this
      ensures counters == Tally(old(counters), accepted, bytes)
    {
      counters := counters.(processed := counters.processed + 1, bytes := counters.bytes + bytes);
      if accepted {
        counters := counters.(accepted := counters.accepted + 1);
      } else {
        counters := counters.(rejected := counters.rejected + 1);
      }
    }
  }

  class SmtpSession {
    var from: string
    var recipients: seq<string>
    var data: string
    const stats: ProxyStats
    const upstream: bool

    constructor (stats: ProxyStats, upstream: bool)
      ensures View() == EMPTY && this.stats == stats && this.upstream == upstream
    {
      from, recipients, data := "", [], "";
      this.stats, this.upstream := stats, upstream;
    }

    function View(): Session
      reads this
    {
      Session(from, recipients, data)
    }

    method HandleMail(line: string) returns (reply: Reply)
      modifies this
      ensures StepResult(View(), stats.counters, reply)
           == SessionStep(old(View()), old(stats.counters), upstream, Mail(line))
    {
      var start, end := Index(line, '<', 0), Index(line, '>', 0);
      if start == -1 || end == -1 {
        return Syntax501;
      }
      if start + 1 > end {
        return Panicked;
      }
      from := line[start + 1..end];
      return Ok250;
    }

    method HandleRcpt(line: string) returns (reply: Reply)
      modifies this
      ensures StepResult(View(), stats.counters, reply)
           == SessionStep(old(View()), old(stats.counters), upstream, Rcpt(line))
    {
      var start, end := Index(line, '<', 0), Index(line, '>', 0);
      if start == -1 || end == -1 {
        return Syntax501;
      }
      if start + 1 > end {
        return Panicked;
      }
      recipients := recipients + [line[start + 1..end]];
      return Ok250;
    }

    method HandleRset() returns (reply: Reply)
      modifies this
      ensures StepResult(View(), stats.counters, reply) == SessionStep(old(View()), old(stats.counters), upstream, Rset)
    {
      from, recipients, data := "", [], "";
      return Ok250;
    }

    method HandleData(input: string, script: ScriptResult, relayed: bool) returns (reply: Reply)
      modifies this, stats
      ensures StepResult(View(), stats.counters, reply)
           == SessionStep(old(View()), old(stats.counters), upstream, Data(input, script, relayed))
    {
      if from == "" || recipients == [] {
        return BadSequence503;
      }
      var read := ReadDataLoop(input);
      if read.Broken? {
        return Silent;
      }
      data := read.data;
      var decision := Decision(false, "Script execution error");
      if script.Acts? {
        decision := ScanForSession(script.actions);
      }
      stats.Count(decision.accepted, |data|);
      if decision.accepted {
        if upstream && !relayed {
          return Temporary450;
        }
        reply := Accepted250;
      } else {
        reply := Rejected550(decision.reason);
      }
      from, recipients, data := "", [], "";
    }
  }

  // The service.

  datatype Request = Request(script: ScriptResult, forward: bool, relayed: bool)

  datatype Response = Response(accepted: bool, reason: string)

  function ServiceStats(t: Stats, req: Request): Stats {
    match req.script
    case ScriptFails => t
    case Acts(actions) => Tally(t, ServiceDecision(actions).accepted, 0)
  }

  function ServiceResponse(upstream: bool, req: Request): Response {
    match req.script
    case ScriptFails => Response(false, "Script error")
    case Acts(actions) =>
      var d := ServiceDecision(actions);
      if d.accepted && req.forward && upstream && !req.relayed then Response(false, "Upstream forward failed")
      else Response(d.accepted, d.reason)
  }

  method ProcessMessage(stats: ProxyStats, upstream: bool, req: Request) returns (r: Response)
    modifies stats
    ensures stats.counters == ServiceStats(old(stats.counters), req)
    ensures r == ServiceResponse(upstream, req)
  {
    if req.script.ScriptFails? {
      return Response(false, "Script error");
    }
    var decision := ScanForService(req.script.actions);
    stats.Count(decision.accepted, 0);
    if decision.accepted && req.forward && upstream && !req.relayed {
      return Response(false, "Upstream forward failed");
    }
    return Response(decision.accepted, decision.reason);
  }

  // Runs of many sessions and service calls.

  datatype Event = InSession(id: int, cmd: Command) | Call(req: Request)

  datatype World = World(sessions: map<int, Session>, stats: Stats)

  /** What an event did: the reply it got, in its session. */
  datatype Entry = Replied(id: int, cmd: Command, reply: Reply) | Responded(req: Request)

  function SessionOf(w: World, id: int): Session {
    if id in w.sessions then w.sessions[id] else EMPTY
  }

  function Next(w: World, upstream: bool, e: Event): (World, Entry) {
    match e
    case InSession(id, cmd) =>
      var r := SessionStep(SessionOf(w, id), w.stats, upstream, cmd);
      (World(w.sessions[id := r.session], r.stats), Replied(id, cmd, r.reply))
    case Call(req) =>
      (w.(stats := ServiceStats(w.stats, req)), Responded(req))
  }

  function Run(events: seq<Event>, upstream: bool): (r: (World, seq<Entry>)) {
    if events == [] then (World(map[], Stats(0, 0, 0, 0)), [])
    else
      var (w, trace) := Run(events[..|events| - 1], upstream);
      var (w', entry) := Next(w, upstream, events[|events| - 1]);
      (w', trace + [entry])
  }

  /** The entry accepted or refused a message by its filter. */
  predicate Accepts(e: Entry) {
    match e
    case Replied(_, _, reply) => reply.Accepted250? || reply.Temporary450?
    case Responded(req) => req.script.Acts? && ServiceDecision(req.script.actions).accepted
  }

  predicate Refuses(e: Entry) {
    match e
    case Replied(_, _, reply) => reply.Rejected550?
    case Responded(req) => req.script.Acts? && !ServiceDecision(req.script.actions).accepted
  }

  function CountIf(trace: seq<Entry>, p: Entry -> bool): nat {
    if trace == [] then 0 else CountIf(trace[..|trace| - 1], p) + (if p(trace[|trace| - 1]) then 1 else 0)
  }

  /** The size of the message that an entry accepted or refused over SMTP. */
  function BytesOf(e: Entry): nat {
    match e
    case Replied(_, Data(input, _, _), reply) =>
      if (Accepts(e) || Refuses(e)) && ReadData(input, "").Received? then |ReadData(input, "").data| else 0
    case _ => 0
  }

  function TotalBytes(trace: seq<Entry>): nat {
    if trace == [] then 0 else TotalBytes(trace[..|trace| - 1]) + BytesOf(trace[|trace| - 1])
  }

  lemma NextBalances(w: World, upstream: bool, e: Event)
    ensures var (w', entry) := Next(w, upstream, e);
            && w'.stats.accepted == w.stats.accepted + (if Accepts(entry) then 1 else 0)
            && w'.stats.rejected == w.stats.rejected + (if Refuses(entry) then 1 else 0)
            && w'.stats.bytes == w.stats.bytes + BytesOf(entry)
            && w'.stats.processed - w.stats.processed
            == w'.stats.accepted - w.stats.accepted + w'.stats.rejected - w.stats.rejected
  {
  }

  /** However sessions and calls interleave, the counters are what the replies show, and they balance. */
  lemma {:induction false} CountersBalance(events: seq<Event>, upstream: bool)
    ensures var (w, trace) := Run(events, upstream);
            && w.stats.accepted == CountIf(trace, Accepts)
            && w.stats.rejected == CountIf(trace, Refuses)
            && w.stats.processed == w.stats.accepted + w.stats.rejected
            && w.stats.bytes == TotalBytes(trace)
  {
    if events != [] {
      var init := events[..|events| - 1];
      CountersBalance(init, upstream);
      NextBalances(Run(init, upstream).0, upstream, events[|events| - 1]);
      var trace := Run(events, upstream).1;
      assert trace[..|trace| - 1] == Run(init, upstream).1;
    }
  }

  // The envelope.

  /** The entry empties the session's envelope. */
  predicate Resets(e: Entry, id: int) {
    e.Replied? && e.id == id && (e.cmd.Rset? || e.reply.Accepted250? || e.reply.Rejected550?)
  }

  /** The position after the last reset of the session. */
  function ResetPoint(trace: seq<Entry>, id: int): (k: nat)
    ensures k <= |trace| && (k > 0 ==> Resets(trace[k - 1], id))
    ensures forall i :: k <= i < |trace| ==> !Resets(trace[i], id)
  {
    if trace == [] then 0
    else if Resets(trace[|trace| - 1], id) then |trace|
    else ResetPoint(trace[..|trace| - 1], id)
  }

  /** The address that an entry of the session gave and that was taken, if it did. */
  function TakenFrom(e: Entry, id: int, mail: bool): seq<string> {
    if && e.Replied? && e.id == id && e.reply.Ok250? && (if mail then e.cmd.Mail? else e.cmd.Rcpt?)
       && Bracketed(e.cmd.line).Found?
    then [Bracketed(e.cmd.line).address] else []
  }

  /** The addresses that MAIL or RCPT commands of the session gave and that were taken, in order. */
  function Taken(trace: seq<Entry>, id: int, mail: bool): seq<string> {
    if trace == [] then [] else Taken(trace[..|trace| - 1], id, mail) + TakenFrom(trace[|trace| - 1], id, mail)
  }

  lemma TakenOne(e: Entry, id: int, mail: bool)
    ensures Taken([e], id, mail) == TakenFrom(e, id, mail)
  {
    assert [e][..0] == [];
  }

  function LastOr(xs: seq<string>, default: string): string {
    if xs == [] then default else xs[|xs| - 1]
  }

  /** What a command does to the envelope, read off the command and its reply. */
  lemma EnvelopeEffect(s: Session, t: Stats, upstream: bool, id: int, cmd: Command)
    ensures var r := SessionStep(s, t, upstream, cmd);
            var e := Replied(id, cmd, r.reply);
            && r.session.from == (if Resets(e, id) then "" else LastOr(Taken([e], id, true), s.from))
            && r.session.recipients == (if Resets(e, id) then [] else s.recipients + Taken([e], id, false))
  {
    var e := Replied(id, cmd, SessionStep(s, t, upstream, cmd).reply);
    TakenOne(e, id, true);
    TakenOne(e, id, false);
  }

  lemma TakenNext(trace: seq<Entry>, e: Entry, id: int, mail: bool)
    ensures Taken(trace + [e], id, mail) == Taken(trace, id, mail) + Taken([e], id, mail)
  {
    assert (trace + [e])[..|trace|] == trace;
    TakenOne(e, id, mail);
  }

  /** The trace since the last reset, after one more entry. */
  lemma SinceResetNext(trace: seq<Entry>, e: Entry, id: int)
    ensures (trace + [e])[ResetPoint(trace + [e], id)..]
         == if Resets(e, id) then [] else trace[ResetPoint(trace, id)..] + [e]
  {
    assert (trace + [e])[..|trace|] == trace;
  }

  ghost predicate EnvelopeIs(s: Session, since: seq<Entry>, id: int) {
    s.from == LastOr(Taken(since, id, true), "") && s.recipients == Taken(since, id, false)
  }

  lemma NotOwn(e: Entry, id: int)
    requires e.Responded? || e.id != id
    ensures !Resets(e, id) && Taken([e], id, true) == [] && Taken([e], id, false) == []
  {
    TakenOne(e, id, true);
    TakenOne(e, id, false);
  }

  lemma OwnEnvelope(s: Session, t: Stats, upstream: bool, id: int, cmd: Command, since: seq<Entry>)
    requires EnvelopeIs(s, since, id)
    ensures var r := SessionStep(s, t, upstream, cmd);
            var e := Replied(id, cmd, r.reply);
            EnvelopeIs(r.session, if Resets(e, id) then [] else since + [e], id)
  {
    var e := Replied(id, cmd, SessionStep(s, t, upstream, cmd).reply);
    EnvelopeEffect(s, t, upstream, id, cmd);
    TakenNext(since, e, id, true);
    TakenNext(since, e, id, false);
  }

  lemma OtherEnvelope(s: Session, id: int, e: Entry, since: seq<Entry>)
    requires EnvelopeIs(s, since, id) && (e.Responded? || e.id != id)
    ensures !Resets(e, id) && EnvelopeIs(s, since + [e], id)
  {
    NotOwn(e, id);
    TakenNext(since, e, id, true);
    TakenNext(since, e, id, false);
  }

  lemma NextEnvelope(w: World, trace: seq<Entry>, upstream: bool, id: int, e: Event)
    requires EnvelopeIs(SessionOf(w, id), trace[ResetPoint(trace, id)..], id)
    ensures var (w', entry) := Next(w, upstream, e);
            EnvelopeIs(SessionOf(w', id), (trace + [entry])[ResetPoint(trace + [entry], id)..], id)
  {
    var (w', entry) := Next(w, upstream, e);
    var since := trace[ResetPoint(trace, id)..];
    SinceResetNext(trace, entry, id);
    if e.InSession? && e.id == id {
      OwnEnvelope(SessionOf(w, id), w.stats, upstream, id, e.cmd, since);
    } else {
      assert SessionOf(w', id) == SessionOf(w, id);
      OtherEnvelope(SessionOf(w, id), id, entry, since);
    }
  }

  /**
   * In every run each session's envelope is the address of its last MAIL command since its last reset,
   * and the addresses of its RCPT commands since then, in order.
   */
  lemma {:induction false} EnvelopeIsSinceReset(events: seq<Event>, upstream: bool, id: int)
    ensures var (w, trace) := Run(events, upstream); EnvelopeIs(SessionOf(w, id), trace[ResetPoint(trace, id)..], id)
  {
    if events != [] {
      var init := events[..|events| - 1];
      EnvelopeIsSinceReset(init, upstream, id);
      var (w, trace) := Run(init, upstream);
      NextEnvelope(w, trace, upstream, id, events[|events| - 1]);
    }
  }

  /** The addresses that the session's MAIL or RCPT commands gave since its last reset, in order. */
  function TakenSinceReset(trace: seq<Entry>, id: int, mail: bool): seq<string> {
    Taken(trace[ResetPoint(trace, id)..], id, mail)
  }

  /**
   * In every run a command counts a message exactly if it is DATA with complete data, the session's last MAIL since
   * its last reset gave a nonempty address, and a RCPT since then was taken.
   */
  lemma ProcessedIff(events: seq<Event>, upstream: bool, id: int, cmd: Command)
    ensures var (w, trace) := Run(events, upstream);
            (Next(w, upstream, InSession(id, cmd)).0.stats != w.stats <==>
              && cmd.Data? && ReadData(cmd.input, "").Received?
              && LastOr(TakenSinceReset(trace, id, true), "") != "" && TakenSinceReset(trace, id, false) != [])
  {
    EnvelopeIsSinceReset(events, upstream, id);
  }

  /**
   * DATA is answered with 250 exactly when the envelope and the data are complete, the script ran, none of its
   * actions refuses, and the message was relayed if it has to be.
   */
  lemma AcceptedReplyIff(s: Session, t: Stats, upstream: bool, input: string, script: ScriptResult, relayed: bool)
    ensures SessionStep(s, t, upstream, Data(input, script, relayed)).reply.Accepted250? <==>
              && s.from != "" && s.recipients != [] && ReadData(input, "").Received?
              && script.Acts? && (forall i :: 0 <= i < |script.actions| ==> Harmless(script.actions[i]))
              && (upstream ==> relayed)
  {
    if script.Acts? {
      AcceptedIffHarmless(script.actions);
    }
  }

  /** The reply to DATA, case by case. */
  lemma DataReplies(s: Session, t: Stats, upstream: bool, input: string, script: ScriptResult, relayed: bool)
    ensures var r := SessionStep(s, t, upstream, Data(input, script, relayed));
            var complete := s.from != "" && s.recipients != [] && ReadData(input, "").Received?;
            var harmless := script.Acts? && forall i :: 0 <= i < |script.actions| ==> Harmless(script.actions[i]);
            && (r.reply == BadSequence503 <==> s.from == "" || s.recipients == [])
            && (r.reply == Silent <==> s.from != "" && s.recipients != [] && ReadData(input, "").Broken?)
            && (r.reply == Accepted250 <==> complete && harmless && (upstream ==> relayed))
            && (r.reply == Temporary450 <==> complete && harmless && upstream && !relayed)
            && (r.reply.Rejected550? <==> complete && !harmless)
            && (complete && script.ScriptFails? ==> r.reply == Rejected550("Script execution error"))
            && (complete && script.Acts? && !harmless ==>
                  r.reply == Rejected550(SessionDecision(script.actions).reason))
            && (complete ==> r.stats == Stats(t.processed + 1, t.accepted + (if harmless then 1 else 0),
                                              t.rejected + (if harmless then 0 else 1),
                                              t.bytes + |ReadData(input, "").data|))
            && (!complete ==> r.stats == t && r.session == s)
  {
    if script.Acts? {
      AcceptedIffHarmless(script.actions);
    }
  }

  /** A message whose first refusing action is "discard" is answered with the words for that. */
  lemma DiscardIsRefused(s: Session, t: Stats, upstream: bool, input: string, actions: seq<string>,
                          relayed: bool, i: nat)
    requires s.from != "" && s.recipients != [] && ReadData(input, "").Received?
    requires i < |actions| && actions[i] == "discard" && forall k :: 0 <= k < i ==> Harmless(actions[k])
    ensures SessionStep(s, t, upstream, Data(input, Acts(actions), relayed)).reply
         == Rejected550("Message discarded by filter")
  {
    SessionReason(actions, i);
    DataReplies(s, t, upstream, input, Acts(actions), relayed);
  }

  /** The answer of the service and what it counts, case by case. */
  lemma ServiceAnswers(t: Stats, upstream: bool, req: Request)
    ensures var r := ServiceResponse(upstream, req);
            var harmless := && req.script.Acts?
                            && forall i :: 0 <= i < |req.script.actions| ==> Harmless(req.script.actions[i]);
            && (r.accepted <==> harmless && (req.forward && upstream ==> req.relayed))
            && (req.script.ScriptFails? ==> r.reason == "Script error" && ServiceStats(t, req) == t)
            && (r.accepted ==> r.reason == "Message accepted")
            && (harmless && !r.accepted ==> r.reason == "Upstream forward failed")
            && (req.script.Acts? && !harmless ==> r.reason == ServiceDecision(req.script.actions).reason)
            && (req.script.Acts? ==>
                  ServiceStats(t, req) == Stats(t.processed + 1, t.accepted + (if harmless then 1 else 0),
                                                t.rejected + (if harmless then 0 else 1), t.bytes))
  {
    if req.script.Acts? {
      AcceptedIffHarmless(req.script.actions);
    }
  }

  lemma IndexIs(line: string, c: char, n: nat)
    requires n < |line| && line[n] == c && forall k :: 0 <= k < n ==> line[k] != c
    ensures Index(line, c, 0) == n
  {
  }

  lemma LineOf(before: string, address: string, after: string) returns (line: string)
    ensures line == before + "<" + address + ">" + after
    ensures |before| + 1 + |address| < |line| && line[..|before|] == before && line[|before|] == '<'
    ensures line[|before| + 1..|before| + 1 + |address|] == address && line[|before| + 1 + |address|] == '>'
  {
    line := before + "<" + address + ">" + after;
  }

  /** The address of a line is what stands between its first < and its first >. */
  lemma AddressBetween(before: string, address: string, after: string)
    requires '<' !in before && '>' !in before && '>' !in address
    ensures Bracketed(before + "<" + address + ">" + after) == Found(address)
  {
    var line := LineOf(before, address, after);
    var n := |before|;
    assert forall k :: 0 <= k < n ==> line[k] == line[..n][k];
    assert forall k :: n < k < n + 1 + |address| ==> line[k] == line[n + 1..n + 1 + |address|][k - n - 1];
    IndexIs(line, '<', n);
    IndexIs(line, '>', n + 1 + |address|);
  }

  /** MAIL and RCPT take the address of such a line, and MAIL replaces the sender where RCPT adds a recipient. */
  lemma AddressIsTaken(s: Session, t: Stats, upstream: bool, before: string, address: string, after: string)
    requires '<' !in before && '>' !in before && '>' !in address
    ensures var line := before + "<" + address + ">" + after;
            && SessionStep(s, t, upstream, Mail(line)) == StepResult(Session(address, s.recipients, s.data), t, Ok250)
            && SessionStep(s, t, upstream, Rcpt(line))
            == StepResult(Session(s.from, s.recipients + [address], s.data), t, Ok250)
  {
    AddressBetween(before, address, after);
  }

  /** A line without both brackets is a syntax error, and only such a line is. */
  lemma SyntaxErrorIff(s: Session, t: Stats, upstream: bool, cmd: Command)
    ensures SessionStep(s, t, upstream, cmd).reply == Syntax501 <==>
              (cmd.Mail? || cmd.Rcpt?) && !('<' in cmd.line && '>' in cmd.line)
  {
    if cmd.Mail? || cmd.Rcpt? {
      var start, end := Index(cmd.line, '<', 0), Index(cmd.line, '>', 0);
      assert '<' in cmd.line <==> start != -1;
      assert '>' in cmd.line <==> end != -1;
    }
  }

  /** RSET empties the session, and other commands change nothing. */
  lemma ResetAndOthers(s: Session, t: Stats, upstream: bool)
    ensures SessionStep(s, t, upstream, Rset) == StepResult(Session("", [], ""), t, Ok250)
    ensures SessionStep(s, t, upstream, Other).session == s && SessionStep(s, t, upstream, Other).stats == t
  {
  }

  // Where the session departs from what a client may expect.

  /** There is a >, no < before it, and a < after it. */
  ghost predicate ClosesFirst(line: string) {
    exists j, i :: 0 <= j < i < |line| && line[j] == '>' && line[i] == '<' && forall k :: 0 <= k < j ==> line[k] != '<'
  }

  lemma ReversedIff(line: string)
    ensures Bracketed(line).Reversed? <==> ClosesFirst(line)
  {
    var start, end := Index(line, '<', 0), Index(line, '>', 0);
    if j, i :| 0 <= j < i < |line| && line[j] == '>' && line[i] == '<' && forall k :: 0 <= k < j ==> line[k] != '<' {
      assert start != -1 && end != -1 && end <= j < start;
    }
  }

  /** The program panics exactly on a MAIL or RCPT line whose brackets come in the wrong order. */
  lemma PanicsIff(s: Session, t: Stats, upstream: bool, cmd: Command)
    ensures SessionStep(s, t, upstream, cmd).reply.Panicked? <==> (cmd.Mail? || cmd.Rcpt?) && ClosesFirst(cmd.line)
  {
    if cmd.Mail? || cmd.Rcpt? {
      ReversedIff(cmd.line);
    }
  }

  /**
   * In every run a MAIL that is accepted starts without recipients exactly if none was taken since the last reset: it
   * does not start a transaction afresh.
   */
  lemma MailStartsAfreshIff(events: seq<Event>, upstream: bool, id: int, line: string)
    requires Bracketed(line).Found?
    ensures var (w, trace) := Run(events, upstream);
            var s' := SessionOf(Next(w, upstream, InSession(id, Mail(line))).0, id);
            && s'.from == Bracketed(line).address && s'.recipients == TakenSinceReset(trace, id, false)
            && (s'.recipients == [] <==> TakenSinceReset(trace, id, false) == [])
  {
    EnvelopeIsSinceReset(events, upstream, id);
  }

  /** DATA that is processed empties the session exactly if the message need not or can be relayed, or is refused. */
  lemma DataEmptiesIff(s: Session, t: Stats, upstream: bool, input: string, script: ScriptResult, relayed: bool)
    requires s.from != "" && s.recipients != [] && ReadData(input, "").Received?
    ensures SessionStep(s, t, upstream, Data(input, script, relayed)).session == EMPTY <==>
              !upstream || relayed || script.ScriptFails?
              || exists i :: 0 <= i < |script.actions| && !Harmless(script.actions[i])
  {
    if script.Acts? {
      AcceptedIffHarmless(script.actions);
    }
  }

  /** The DATA command of a session was judged, or the call of the service whose script ran. */
  predicate Judged(e: Entry) {
    match e
    case Replied(_, cmd, reply) => cmd.Data? && (reply.Accepted250? || reply.Temporary450? || reply.Rejected550?)
    case Responded(req) => req.script.Acts?
  }

  /** In every run a message is counted exactly if it was judged, so that a script error counts only over SMTP. */
  lemma {:induction false} CountedAreJudged(events: seq<Event>, upstream: bool)
    ensures var (w, trace) := Run(events, upstream); w.stats.processed == CountIf(trace, Judged)
  {
    if events != [] {
      var init := events[..|events| - 1];
      CountedAreJudged(init, upstream);
      NextCounts(Run(init, upstream).0, upstream, events[|events| - 1]);
      var trace := Run(events, upstream).1;
      assert trace[..|trace| - 1] == Run(init, upstream).1;
    }
  }

  lemma NextCounts(w: World, upstream: bool, e: Event)
    ensures var (w', entry) := Next(w, upstream, e);
            w'.stats.processed == w.stats.processed + (if Judged(entry) then 1 else 0)
  {
  }

  /** A message is judged over SMTP whenever its data are complete, and by the service exactly if its script ran. */
  lemma CountedIff(s: Session, t: Stats, upstream: bool, input: string, script: ScriptResult,
                   forward: bool, relayed: bool)
    requires s.from != "" && s.recipients != [] && ReadData(input, "").Received?
    ensures SessionStep(s, t, upstream, Data(input, script, relayed)).stats.processed == t.processed + 1
    ensures ServiceStats(t, Request(script, forward, relayed)).processed == t.processed + 1 <==> script.Acts?
  {
  }

  // Inputs with which that happens.

  lemma ReversedLinePanics(s: Session, t: Stats, upstream: bool)
    ensures SessionStep(s, t, upstream, Mail("><")).reply.Panicked?
  {
    var line := "><";
    assert line[0] == '>' && line[1] == '<';
    PanicsIff(s, t, upstream, Mail(line));
  }

  /** An empty message that no action refuses, and that cannot be relayed, keeps its envelope. */
  lemma UnrelayedKeepsEnvelope(from: string, to: string, t: Stats)
    requires from != ""
    ensures var r := SessionStep(Session(from, [to], ""), t, true, Data(".\r\n", Acts([]), false));
            r.reply.Temporary450? && r.session == Session(from, [to], "")
  {
    TextLines.OneLine(DOT_CRLF);
    assert ReadData(DOT_CRLF, "") == Received("", DOT_CRLF[3..]);
  }
}
