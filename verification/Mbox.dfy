/** The mbox splitter, in its two copies: the importer's and the one of the process command. */
module Mbox {
  import opened TextLines

  predicate IsEnvelope(line: string) {
    "From " <= line
  }

  /** The messages that an envelope line ended, and the text since then. */
  datatype Split = Split(ended: seq<string>, pending: string)

  function Read(s: Split, line: string): Split {
    if !IsEnvelope(line) then s.(pending := s.pending + line)
    else if s.pending == "" then s
    else Split(s.ended + [s.pending], "")
  }

  function Scan(s: Split, lines: seq<string>): Split
    decreases |lines|
  {
    if lines == [] then s else Scan(Read(s, lines[0]), lines[1..])
  }

  function Finish(s: Split): seq<string> {
    if s.pending == "" then s.ended else s.ended + [s.pending]
  }

  function SplitOf(text: string): Split {
    Scan(Split([], ""), Lines(text))
  }

  function Messages(text: string): seq<string> {
    Finish(SplitOf(text))
  }

  function Count(ms: seq<string>, accepts: string -> bool): nat {
    if ms == [] then 0 else Count(ms[..|ms| - 1], accepts) + (if accepts(ms[|ms| - 1]) then 1 else 0)
  }

  /** The last line is incomplete or empty; scanning it is scanning what is left. */
  lemma LastLine(s: Split, text: string)
    requires !Complete(FirstLine(text))
    ensures FirstLine(text) == text
    ensures Scan(s, Lines(text)) == Read(s, text)
  {
    NoNewline(text);
    if text == "" {
      assert s.pending + text == s.pending;
    } else {
      assert Lines(text) == [text];
    }
  }

  lemma NextLine(s: Split, text: string)
    requires Complete(FirstLine(text))
    ensures Scan(s, Lines(text)) == Scan(Read(s, FirstLine(text)), Lines(text[|FirstLine(text)|..]))
  {
  }

  /** Injects one message and counts it. */
  method Inject(emitted: seq<string>, message: string, inject: string -> bool, msgs: nat, errors: nat)
      returns (emitted': seq<string>, msgs': nat, errors': nat)
    requires msgs == Count(emitted, inject) && msgs + errors == |emitted|
    ensures emitted' == emitted + [message]
    ensures msgs' == Count(emitted', inject) && msgs' + errors' == |emitted'|
  {
    emitted', msgs', errors' := emitted + [message], msgs, errors;
    assert emitted'[..|emitted|] == emitted;
    if inject(message) {
      msgs' := msgs + 1;
    } else {
      errors' := errors + 1;
    }
  }

  /** The importer: inject stands for parsing and storing a message. */
  method ParseMbox(text: string, inject: string -> bool) returns (emitted: seq<string>, msgCount: nat, errorCount: nat)
    ensures emitted == Messages(text)
    ensures msgCount == Count(emitted, inject) && msgCount + errorCount == |emitted|
  {
    var buffer := "";
    emitted, msgCount, errorCount := [], 0, 0;
    var rest := text;
    while true
      invariant Scan(Split(emitted, buffer), Lines(rest)) == SplitOf(text)
      invariant msgCount == Count(emitted, inject) && msgCount + errorCount == |emitted|
      decreases |rest|
    {
      var line := FirstLine(rest);
      var eof := !Complete(line);
      if eof {
        LastLine(Split(emitted, buffer), rest);
      } else {
        NextLine(Split(emitted, buffer), rest);
      }
      rest := rest[|line|..];
      if IsEnvelope(line) && buffer == "" {
        if eof {
          break;
        }
        continue;
      }
      if IsEnvelope(line) && buffer != "" {
        emitted, msgCount, errorCount := Inject(emitted, buffer, inject, msgCount, errorCount);
        buffer := "";
        if eof {
          break;
        }
        continue;
      }
      buffer := buffer + line;
      if eof {
        if buffer != "" {
          emitted, msgCount, errorCount := Inject(emitted, buffer, inject, msgCount, errorCount);
        }
        break;
      }
    }
  }

  datatype ProcessResult = ProcessResult(messageNum: nat, raw: string)

  function Numbered(ms: seq<string>): (r: seq<ProcessResult>)
    ensures |r| == |ms| && forall i :: 0 <= i < |r| ==> r[i] == ProcessResult(i + 1, ms[i])
  {
    seq(|ms|, i requires 0 <= i < |ms| => ProcessResult(i + 1, ms[i]))
  }

  /** The messages that the process command handles; 0 means no limit. */
  function Limited(text: string, maxMessages: int): seq<string> {
    var s := SplitOf(text);
    if 0 < maxMessages < |s.ended| then s.ended[..maxMessages] else Finish(s)
  }

  lemma {:induction false} ScanExtends(s: Split, lines: seq<string>)
    ensures s.ended <= Scan(s, lines).ended
    decreases |lines|
  {
    if lines != [] {
      ScanExtends(Read(s, lines[0]), lines[1..]);
    }
  }

  /** Handles one message and appends its result. */
  method Handle(results: seq<ProcessResult>, msgNum: nat, message: string, ghost emitted: seq<string>)
      returns (results': seq<ProcessResult>)
    requires results == Numbered(emitted) && msgNum == |emitted| + 1
    ensures results' == Numbered(emitted + [message])
  {
    results' := results + [ProcessResult(msgNum, message)];
  }

  lemma OverLimit(emitted: seq<string>, buffer: string, lines: seq<string>, text: string)
    requires Scan(Split(emitted + [buffer], ""), lines) == SplitOf(text)
    ensures |emitted| > 0 ==> Limited(text, |emitted|) == emitted
  {
    ScanExtends(Split(emitted + [buffer], ""), lines);
  }

  /** The process command: each message is numbered and handled, up to the limit. */
  method ProcessMbox(text: string, maxMessages: int) returns (results: seq<ProcessResult>)
    ensures results == Numbered(Limited(text, maxMessages))
  {
    var buffer := "";
    var msgNum := 0;
    results := [];
    var rest := text;
    ghost var emitted: seq<string> := [];
    while true
      invariant Scan(Split(emitted, buffer), Lines(rest)) == SplitOf(text)
      invariant results == Numbered(emitted) && msgNum == |emitted|
      invariant maxMessages > 0 ==> |emitted| <= maxMessages
      decreases |rest|
    {
      var line := FirstLine(rest);
      var eof := !Complete(line);
      if eof {
        LastLine(Split(emitted, buffer), rest);
      } else {
        NextLine(Split(emitted, buffer), rest);
      }
      rest := rest[|line|..];
      if IsEnvelope(line) && buffer == "" {
        if eof {
          break;
        }
        continue;
      }
      if IsEnvelope(line) && buffer != "" {
        msgNum := msgNum + 1;
        if maxMessages > 0 && msgNum > maxMessages {
          OverLimit(emitted, buffer, if eof then [] else Lines(rest), text);
          return;
        }
        results := Handle(results, msgNum, buffer, emitted);
        emitted := emitted + [buffer];
        buffer := "";
        if eof {
          break;
        }
        continue;
      }
      buffer := buffer + line;
      if eof {
        if buffer != "" {
          msgNum := msgNum + 1;
          results := Handle(results, msgNum, buffer, emitted);
        }
        break;
      }
    }
  }

  // What the splitter promises.

  ghost predicate AllNonempty(ms: seq<string>) {
    forall i :: 0 <= i < |ms| ==> ms[i] != ""
  }

  lemma {:induction false} ScanNonempty(s: Split, lines: seq<string>)
    requires AllNonempty(s.ended)
    ensures AllNonempty(Scan(s, lines).ended)
    decreases |lines|
  {
    if lines != [] {
      ScanNonempty(Read(s, lines[0]), lines[1..]);
    }
  }

  lemma MessagesNonempty(text: string)
    ensures AllNonempty(Messages(text))
  {
    ScanNonempty(Split([], ""), Lines(text));
  }

  function WithoutEnvelopes(lines: seq<string>): seq<string> {
    if lines == [] then []
    else (if IsEnvelope(lines[0]) then [] else [lines[0]]) + WithoutEnvelopes(lines[1..])
  }

  /** The text that a state of the scan holds. */
  function Held(s: Split): string {
    Concat(s.ended) + s.pending
  }

  lemma ReadHolds(s: Split, line: string)
    ensures Held(Read(s, line)) == Held(s) + (if IsEnvelope(line) then "" else line)
  {
    ConcatAppend(s.ended, [s.pending]);
    ConcatOne(s.pending);
  }

  lemma {:induction false} ScanHolds(s: Split, lines: seq<string>)
    ensures Held(Scan(s, lines)) == Held(s) + Concat(WithoutEnvelopes(lines))
    decreases |lines|
  {
    if lines != [] {
      var head := if IsEnvelope(lines[0]) then [] else [lines[0]];
      ReadHolds(s, lines[0]);
      ScanHolds(Read(s, lines[0]), lines[1..]);
      ConcatAppend(head, WithoutEnvelopes(lines[1..]));
      ConcatOne(lines[0]);
    }
  }

  lemma FinishHolds(s: Split)
    ensures Concat(Finish(s)) == Held(s)
  {
    ConcatAppend(s.ended, [s.pending]);
    ConcatOne(s.pending);
    assert Concat(s.ended) + "" == Concat(s.ended);
  }

  /** The messages, put together, are the file with exactly its envelope lines removed. */
  lemma MessagesConcat(text: string)
    ensures Concat(Messages(text)) == Concat(WithoutEnvelopes(Lines(text)))
    ensures Concat(Lines(text)) == text
  {
    var s := SplitOf(text);
    var kept := Concat(WithoutEnvelopes(Lines(text)));
    ScanHolds(Split([], ""), Lines(text));
    assert Held(Split([], "")) == "" && "" + kept == kept;
    FinishHolds(s);
    LinesConcat(text);
  }

  // The messages lie between the envelope lines.

  /** The lines from lo on, up to hi, are not envelope lines, and the ones next to them, if any, are. */
  ghost predicate MaximalRun(lines: seq<string>, lo: nat, hi: nat) {
    && lo < hi <= |lines|
    && (forall t :: lo <= t < hi ==> !IsEnvelope(lines[t]))
    && (lo == 0 || IsEnvelope(lines[lo - 1]))
    && (hi == |lines| || IsEnvelope(lines[hi]))
  }

  /** The runs give the messages, in order, and leave out no line but envelope lines before the given end. */
  ghost predicate AreRuns(lines: seq<string>, ms: seq<string>, runs: seq<(nat, nat)>, end: nat)
    requires end <= |lines|
  {
    && |runs| == |ms|
    && (forall i :: 0 <= i < |runs| ==> MaximalRun(lines, runs[i].0, runs[i].1) && runs[i].1 <= end)
    && (forall i :: 0 <= i < |runs| ==> ms[i] == Concat(lines[runs[i].0..runs[i].1]))
    && (forall i, j :: 0 <= i < j < |runs| ==> runs[i].1 < runs[j].0)
    && (forall t :: 0 <= t < end && !IsEnvelope(lines[t]) ==> InRun(runs, t))
  }

  ghost predicate InRun(runs: seq<(nat, nat)>, t: nat) {
    exists i :: 0 <= i < |runs| && runs[i].0 <= t < runs[i].1
  }

  /** After the first n lines, the pending text began with line p. */
  ghost predicate ScannedTo(lines: seq<string>, s: Split, runs: seq<(nat, nat)>, p: nat, n: nat) {
    && p <= n <= |lines|
    && AreRuns(lines, s.ended, runs, p)
    && (forall i :: 0 <= i < |runs| ==> runs[i].1 < p)
    && (p == 0 || IsEnvelope(lines[p - 1]))
    && (forall t :: p <= t < n ==> !IsEnvelope(lines[t]))
    && s.pending == Concat(lines[p..n])
  }

  ghost predicate NonemptyLines(lines: seq<string>) {
    forall t :: 0 <= t < |lines| ==> lines[t] != ""
  }

  lemma {:induction false} LinesNonempty(text: string)
    ensures NonemptyLines(Lines(text))
    decreases |text|
  {
    if text != "" {
      LinesNonempty(text[|FirstLine(text)|..]);
    }
  }

  lemma RunAdded(lines: seq<string>, ms: seq<string>, runs: seq<(nat, nat)>, p: nat, n: nat)
    requires p < n <= |lines| && AreRuns(lines, ms, runs, p) && MaximalRun(lines, p, n)
    requires forall i :: 0 <= i < |runs| ==> runs[i].1 < p
    ensures AreRuns(lines, ms + [Concat(lines[p..n])], runs + [(p, n)], n)
  {
    var runs' := runs + [(p, n)];
    forall t | 0 <= t < n && !IsEnvelope(lines[t])
      ensures InRun(runs', t)
    {
      if t < p {
        var i :| 0 <= i < |runs| && runs[i].0 <= t < runs[i].1;
        assert runs'[i] == runs[i];
      } else {
        assert runs'[|runs|] == (p, n);
      }
    }
  }

  /** A run that has come to its end is one more message. */
  lemma RunEnds(lines: seq<string>, s: Split, runs: seq<(nat, nat)>, p: nat, n: nat) returns (runs': seq<(nat, nat)>)
    requires NonemptyLines(lines) && ScannedTo(lines, s, runs, p, n) && (n == |lines| || IsEnvelope(lines[n]))
    ensures AreRuns(lines, Finish(s), runs', n)
  {
    if p == n {
      assert lines[p..n] == [];
      runs' := runs;
    } else {
      assert lines[p..n] == [lines[p]] + lines[p + 1..n];
      ConcatCons(lines[p], lines[p + 1..n]);
      RunAdded(lines, s.ended, runs, p, n);
      runs' := runs + [(p, n)];
    }
  }

  lemma RunGoesOn(lines: seq<string>, s: Split, runs: seq<(nat, nat)>, p: nat, n: nat)
    requires ScannedTo(lines, s, runs, p, n) && n < |lines| && !IsEnvelope(lines[n])
    ensures ScannedTo(lines, Read(s, lines[n]), runs, p, n + 1)
  {
    assert lines[p..n + 1] == lines[p..n] + [lines[n]];
    ConcatAppend(lines[p..n], [lines[n]]);
    ConcatOne(lines[n]);
  }

  lemma ReadEnvelope(s: Split, line: string)
    requires IsEnvelope(line)
    ensures Read(s, line) == Split(Finish(s), "")
  {
  }

  lemma AfterEnvelope(lines: seq<string>, s: Split, runs: seq<(nat, nat)>, p: nat, n: nat)
      returns (runs': seq<(nat, nat)>)
    requires NonemptyLines(lines) && ScannedTo(lines, s, runs, p, n) && n < |lines| && IsEnvelope(lines[n])
    ensures ScannedTo(lines, Read(s, lines[n]), runs', n + 1, n + 1)
  {
    runs' := RunEnds(lines, s, runs, p, n);
    ReadEnvelope(s, lines[n]);
    assert lines[n + 1..n + 1] == [];
  }

  lemma {:induction false} ScanRuns(lines: seq<string>, s: Split, runs: seq<(nat, nat)>, p: nat, n: nat)
      returns (runs': seq<(nat, nat)>)
    requires NonemptyLines(lines) && ScannedTo(lines, s, runs, p, n)
    ensures AreRuns(lines, Finish(Scan(s, lines[n..])), runs', |lines|)
    decreases |lines| - n
  {
    if n == |lines| {
      runs' := RunEnds(lines, s, runs, p, n);
    } else {
      assert lines[n..][1..] == lines[n + 1..];
      if IsEnvelope(lines[n]) {
        runs' := AfterEnvelope(lines, s, runs, p, n);
        runs' := ScanRuns(lines, Read(s, lines[n]), runs', n + 1, n + 1);
      } else {
        RunGoesOn(lines, s, runs, p, n);
        runs' := ScanRuns(lines, Read(s, lines[n]), runs, p, n + 1);
      }
    }
  }

  /** The messages are the maximal runs of lines that are not envelope lines, all of them and in order. */
  lemma MessagesAreRuns(text: string) returns (runs: seq<(nat, nat)>)
    ensures AreRuns(Lines(text), Messages(text), runs, |Lines(text)|)
  {
    var lines := Lines(text);
    LinesNonempty(text);
    assert lines[0..0] == [] && lines[0..] == lines;
    runs := ScanRuns(lines, Split([], ""), [], 0, 0);
  }

  /** The two copies split alike exactly if the limit admits all messages that an envelope line ended. */
  lemma CopiesAgreeIff(text: string, maxMessages: int)
    ensures Limited(text, maxMessages) == Messages(text) <==> maxMessages <= 0 || |SplitOf(text).ended| <= maxMessages
  {
  }

  /** The limit is exceeded exactly if the file ends inside the message after it, and then by one. */
  lemma LimitExceededIff(text: string, maxMessages: int)
    requires maxMessages > 0
    ensures |Limited(text, maxMessages)| > maxMessages <==>
              |SplitOf(text).ended| == maxMessages && SplitOf(text).pending != ""
    ensures |Limited(text, maxMessages)| <= maxMessages + 1
  {
  }

  // Splitting undoes rendering.

  function Render(ms: seq<string>, envelopes: seq<string>): string
    requires |ms| == |envelopes|
  {
    if ms == [] then "" else "From " + envelopes[0] + "\n" + ms[0] + Render(ms[1..], envelopes[1..])
  }

  /** A message that mbox can hold as it is. */
  ghost predicate Storable(m: string) {
    Complete(m) && forall i :: 0 <= i < |Lines(m)| ==> !IsEnvelope(Lines(m)[i])
  }

  lemma {:induction false} ScanBody(s: Split, body: seq<string>, more: seq<string>)
    requires forall i :: 0 <= i < |body| ==> !IsEnvelope(body[i])
    ensures Scan(s, body + more) == Scan(s.(pending := s.pending + Concat(body)), more)
    decreases |body|
  {
    if body == [] {
      assert body + more == more && s.pending + Concat(body) == s.pending;
    } else {
      ScanBody(Read(s, body[0]), body[1..], more);
      assert (body + more)[1..] == body[1..] + more;
      assert (s.pending + body[0]) + Concat(body[1..]) == s.pending + Concat(body);
    }
  }

  lemma EnvelopeLine(envelope: string)
    requires '\n' !in envelope
    ensures var line := "From " + envelope + "\n"; Complete(line) && IsEnvelope(line) && Lines(line) == [line]
  {
    OneLine("From " + envelope + "\n");
  }

  /** An envelope line and a message leave the message pending and end the one before it. */
  lemma ScanOne(s: Split, line: string, m: string, more: string)
    requires Complete(line) && IsEnvelope(line) && Lines(line) == [line] && Storable(m)
    ensures Scan(s, Lines(line + (m + more))) == Scan(Split(Finish(s), m), Lines(more))
  {
    LinesAppend(line, m + more);
    LinesAppend(m, more);
    var s1 := Split(Finish(s), "");
    ReadEnvelope(s, line);
    ScanBody(s1, Lines(m), Lines(more));
    LinesConcat(m);
    assert "" + m == m;
    assert ([line] + (Lines(m) + Lines(more)))[1..] == Lines(m) + Lines(more);
  }

  lemma RenderCons(ms: seq<string>, envelopes: seq<string>, line: string, rest: string)
    requires |ms| == |envelopes| > 0 && line == "From " + envelopes[0] + "\n" && rest == Render(ms[1..], envelopes[1..])
    ensures Render(ms, envelopes) == line + (ms[0] + rest)
  {
    assert line + ms[0] + rest == line + (ms[0] + rest);
  }

  lemma MessageByMessage(before: seq<string>, ms: seq<string>)
    requires ms != [] && Storable(ms[0])
    ensures Finish(Split(before, ms[0])) + ms[1..] == before + ms
  {
    assert before + [ms[0]] + ms[1..] == before + ms;
  }

  lemma {:induction false} ScanRendered(ms: seq<string>, envelopes: seq<string>, s: Split)
    requires |ms| == |envelopes|
    requires forall i :: 0 <= i < |ms| ==> Storable(ms[i]) && '\n' !in envelopes[i]
    ensures Finish(Scan(s, Lines(Render(ms, envelopes)))) == Finish(s) + ms
    ensures ms != [] ==> Scan(s, Lines(Render(ms, envelopes))).pending == ms[|ms| - 1]
    decreases |ms|
  {
    if ms != [] {
      var line := "From " + envelopes[0] + "\n";
      var rest := Render(ms[1..], envelopes[1..]);
      RenderCons(ms, envelopes, line, rest);
      EnvelopeLine(envelopes[0]);
      ScanOne(s, line, ms[0], rest);
      ScanRendered(ms[1..], envelopes[1..], Split(Finish(s), ms[0]));
      MessageByMessage(Finish(s), ms);
    }
  }

  /** Splitting a rendered list of storable messages gives the list back. */
  lemma SplitRender(ms: seq<string>, envelopes: seq<string>)
    requires |ms| == |envelopes|
    requires forall i :: 0 <= i < |ms| ==> Storable(ms[i]) && '\n' !in envelopes[i]
    ensures Messages(Render(ms, envelopes)) == ms
  {
    ScanRendered(ms, envelopes, Split([], ""));
  }

  /** With a limit of one less than there are messages, a rendered list is handled completely. */
  lemma RenderedExceedsLimit(ms: seq<string>, envelopes: seq<string>)
    requires |ms| == |envelopes| >= 2
    requires forall i :: 0 <= i < |ms| ==> Storable(ms[i]) && '\n' !in envelopes[i]
    ensures Limited(Render(ms, envelopes), |ms| - 1) == ms
  {
    ScanRendered(ms, envelopes, Split([], ""));
    assert Finish(SplitOf(Render(ms, envelopes))) == ms;
  }

  /** Two messages of one empty line each, and the limit 1. */
  lemma LimitOneHandlesTwo()
    ensures Limited(Render(["\n", "\n"], ["", ""]), 1) == ["\n", "\n"]
  {
    OneLine("\n");
    assert Storable("\n");
    RenderedExceedsLimit(["\n", "\n"], ["", ""]);
  }

  // The envelope line, character by character.

  /** An envelope line begins with the word From and a space; a header line From: does not. */
  lemma EnvelopeIff(line: string)
    ensures IsEnvelope(line) <==>
              && |line| >= 5 && line[0] == 'F' && line[1] == 'r' && line[2] == 'o' && line[3] == 'm' && line[4] == ' '
    ensures "From:" <= line ==> !IsEnvelope(line)
  {
    assert IsEnvelope(line) ==> line[..5] == "From ";
    assert |line| >= 5 && line[0] == 'F' && line[1] == 'r' && line[2] == 'o' && line[3] == 'm' && line[4] == ' ' ==>
        line[..5] == "From ";
    if "From:" <= line {
      assert line[4] == "From:"[4];
    }
  }

  /** A message that begins with a From: header is stored and split as it is. */
  lemma FromHeaderIsKept(value: string, envelope: string)
    requires '\n' !in value && '\n' !in envelope
    ensures var message := "From:" + value + "\n"; Messages("From " + envelope + "\n" + message) == [message]
  {
    var message := "From:" + value + "\n";
    OneLine(message);
    assert "From:" <= message;
    EnvelopeIff(message);
    SplitRender([message], [envelope]);
    RenderOne(message, envelope);
  }

  lemma RenderOne(message: string, envelope: string)
    ensures Render([message], [envelope]) == "From " + envelope + "\n" + message
  {
    assert [message][1..] == [] && [envelope][1..] == [];
  }

  // The counters and the limit.

  /** Where the messages that could be injected are. */
  function Injected(ms: seq<string>, inject: string -> bool): set<nat> {
    set i | 0 <= i < |ms| && inject(ms[i])
  }

  lemma InjectedNext(ms: seq<string>, inject: string -> bool)
    requires ms != []
    ensures var n := |ms| - 1;
            var before := Injected(ms[..n], inject);
            n !in before && Injected(ms, inject) == before + if inject(ms[n]) then {n} else {}
  {
  }

  /** The importer's count is the number of messages that could be injected. */
  lemma {:induction false} CountIsCardinality(ms: seq<string>, inject: string -> bool)
    ensures Count(ms, inject) == |Injected(ms, inject)|
  {
    if ms != [] {
      InjectedNext(ms, inject);
      CountIsCardinality(ms[..|ms| - 1], inject);
    }
  }

  /** With or without a limit, the messages handled are the first ones, and as many as the limit if there are enough. */
  lemma LimitedIsPrefix(text: string, maxMessages: int)
    ensures Limited(text, maxMessages) <= Messages(text)
    ensures maxMessages <= 0 ==> Limited(text, maxMessages) == Messages(text)
    ensures maxMessages > 0 && |Messages(text)| <= maxMessages ==> Limited(text, maxMessages) == Messages(text)
    ensures maxMessages > 0 && |Messages(text)| > maxMessages + 1 ==> |Limited(text, maxMessages)| == maxMessages
  {
  }
}
