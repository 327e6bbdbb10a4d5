/** The DATA reader and what is written upstream after DATA (sections 4.1.1.4 and 4.5.2 of RFC 5321). */
module MailData {
  import opened TextLines

  const CRLF := "\r\n"
  const DOT_CRLF := ".\r\n"

  predicate IsEnd(line: string) {
    line == DOT_CRLF || line == ".\n"
  }

  /** Broken: the connection ended before the end of the data. */
  datatype DataRead = Received(data: string, rest: string) | Broken

  function ReadData(input: string, data: string): DataRead
    decreases |input|
  {
    var line := FirstLine(input);
    if !Complete(line) then Broken
    else if IsEnd(line) then Received(data, input[|line|..])
    else ReadData(input[|line|..], data + line)
  }

  method ReadDataLoop(input: string) returns (r: DataRead)
    ensures r == ReadData(input, "")
  {
    var data := "";
    var rest := input;
    while true
      invariant ReadData(rest, data) == ReadData(input, "")
      decreases |rest|
    {
      var line := FirstLine(rest);
      if !Complete(line) {
        return Broken;
      }
      rest := rest[|line|..];
      if IsEnd(line) {
        return Received(data, rest);
      }
      data := data + line;
    }
  }

  /** What goes upstream: the stored data as it is, an empty line's end, and the end of data. */
  function Wire(data: string): string {
    data + (CRLF + DOT_CRLF)
  }

  /** Text that the reader can have stored: whole lines, none of which ends the data. */
  ghost predicate Accepted(data: string) {
    (data == "" || Complete(data)) && forall i :: 0 <= i < |Lines(data)| ==> !IsEnd(Lines(data)[i])
  }

  lemma OneMoreLine(data: string, line: string)
    requires Accepted(data) && Complete(line) && FirstLine(line) == line && !IsEnd(line)
    ensures Accepted(data + line)
  {
    LinesAppend(data, line);
    assert line[|line|..] == "";
    assert Lines(line) == [line];
    assert Complete(data + line);
  }

  lemma {:induction false} FirstLineAgain(text: string)
    ensures FirstLine(FirstLine(text)) == FirstLine(text)
  {
    if text != "" && text[0] != '\n' {
      FirstLineAgain(text[1..]);
      assert FirstLine(text)[1..] == FirstLine(text[1..]);
    }
  }

  lemma {:induction false} ReadDataAccepts(input: string, data: string)
    requires Accepted(data)
    ensures ReadData(input, data).Received? ==> Accepted(ReadData(input, data).data)
    decreases |input|
  {
    var line := FirstLine(input);
    if Complete(line) && !IsEnd(line) {
      FirstLineAgain(input);
      OneMoreLine(data, line);
      ReadDataAccepts(input[|line|..], data + line);
    }
  }

  /** The first line of text that ends in a newline ends in a newline. */
  lemma {:induction false} FirstLineComplete(text: string)
    requires Complete(text)
    ensures Complete(FirstLine(text))
  {
    if text[0] != '\n' {
      FirstLineComplete(text[1..]);
      assert FirstLine(text) == [text[0]] + FirstLine(text[1..]);
    }
  }

  lemma AcceptedTail(text: string)
    requires Accepted(text) && text != ""
    ensures Complete(FirstLine(text)) && !IsEnd(FirstLine(text)) && Accepted(text[|FirstLine(text)|..])
  {
    var line := FirstLine(text);
    var rest := text[|line|..];
    FirstLineComplete(text);
    LinesCons(text, line, rest);
    assert Lines(text)[0] == line;
    forall i | 0 <= i < |Lines(rest)|
      ensures !IsEnd(Lines(rest)[i])
    {
      assert Lines(rest)[i] == Lines(text)[i + 1];
    }
    assert rest != "" ==> rest[|rest| - 1] == text[|text| - 1];
  }

  lemma Regroup(a: string, b: string, c: string)
    ensures (a + b) + c == a + (b + c)
  {
  }

  lemma Nothing(a: string)
    ensures "" + a == a && a + "" == a
  {
  }

  lemma SplitLine(text: string, more: string, line: string, rest: string)
    requires Complete(line) && line == FirstLine(text) && rest == text[|line|..]
    ensures FirstLine(text + more) == line && (text + more)[|line|..] == rest + more && text == line + rest
  {
    LineOfWhole(text, line);
    FirstLineOfAppended(text, more);
    assert |line| <= |text|;
  }

  lemma LineOfWhole(text: string, line: string)
    requires line == FirstLine(text)
    ensures text == line + text[|line|..]
  {
  }

  /** The first line of text is that of longer text, if it is complete. */
  lemma {:induction false} FirstLineOfAppended(text: string, more: string)
    requires Complete(FirstLine(text))
    ensures FirstLine(text + more) == FirstLine(text)
  {
    assert (text + more)[0] == text[0];
    if text[0] != '\n' {
      assert (text + more)[1..] == text[1..] + more;
      var line, tail := FirstLine(text), FirstLine(text[1..]);
      assert line == [text[0]] + tail && line[|line| - 1] == '\n';
      FirstLineOfAppended(text[1..], more);
    }
  }

  lemma ReadStep(input: string, data: string, line: string, rest: string)
    requires line == FirstLine(input) && rest == input[|line|..] && Complete(line) && !IsEnd(line)
    ensures ReadData(input, data) == ReadData(rest, data + line)
  {
  }

  /** The first line of accepted text is read, and the rest follows. */
  lemma ReadOneMore(text: string, more: string, data: string, line: string, rest: string)
    requires Accepted(text) && text != "" && line == FirstLine(text) && rest == text[|line|..]
    ensures Accepted(rest) && |rest| < |text| && data + text == (data + line) + rest
    ensures ReadData(text + more, data) == ReadData(rest + more, data + line)
  {
    AcceptedTail(text);
    SplitLine(text, more, line, rest);
    ReadStep(text + more, data, line, rest + more);
    Regroup(data, line, rest);
  }

  lemma {:induction false} ReadAccepted(text: string, more: string, data: string)
    requires Accepted(text)
    ensures ReadData(text + more, data) == ReadData(more, data + text)
    decreases |text|
  {
    if text == "" {
      Nothing(more);
      Nothing(data);
    } else {
      var line := FirstLine(text);
      ReadOneMore(text, more, data, line, text[|line|..]);
      ReadAccepted(text[|line|..], more, data + line);
    }
  }

  lemma ReadEnd(data: string, more: string)
    ensures ReadData(CRLF + DOT_CRLF + more, data) == Received(data + CRLF, more)
  {
    var tail := DOT_CRLF + more;
    OneLine(CRLF);
    OneLine(DOT_CRLF);
    FirstLineAppend(CRLF, tail);
    FirstLineAppend(DOT_CRLF, more);
    assert CRLF + DOT_CRLF + more == CRLF + tail;
    assert (CRLF + tail)[2..] == tail && tail[3..] == more;
    assert CRLF[1] == '\n' && DOT_CRLF[2] == '\n';
  }

  /** Relaying is transparent: a reader of the same kind upstream never stops early, and reads one line end more. */
  lemma RelayTransparent(input: string, more: string)
    requires ReadData(input, "").Received?
    ensures var data := ReadData(input, "").data; ReadData(Wire(data) + more, "") == Received(data + CRLF, more)
  {
    var data := ReadData(input, "").data;
    ReadDataAccepts(input, "");
    assert Wire(data) + more == data + (CRLF + DOT_CRLF + more);
    ReadAccepted(data, CRLF + DOT_CRLF + more, "");
    assert "" + data == data;
    ReadEnd(data, more);
  }

  /** Accepted is exactly what can be stored. */
  lemma AcceptedIff(data: string)
    ensures Accepted(data) <==> exists input :: ReadData(input, "").Received? && ReadData(input, "").data == data
  {
    if Accepted(data) {
      ReadAccepted(data, DOT_CRLF, "");
      assert "" + data == data;
      OneLine(DOT_CRLF);
      assert ReadData(DOT_CRLF, data).data == data;
      assert ReadData(data + DOT_CRLF, "").data == data;
    }
    if input :| ReadData(input, "").Received? && ReadData(input, "").data == data {
      ReadDataAccepts(input, "");
    }
  }

  /** Data that were read and an end-of-data line are what came in before the rest. */
  lemma {:induction false} ReadDataSplits(input: string, data: string) returns (text: string, end: string)
    requires ReadData(input, data).Received?
    ensures IsEnd(end) && input == text + (end + ReadData(input, data).rest)
    ensures ReadData(input, data).data == data + text
    decreases |input|
  {
    var line := FirstLine(input);
    var rest := input[|line|..];
    LineOfWhole(input, line);
    if IsEnd(line) {
      text, end := "", line;
      Nothing(data);
      Nothing(line + rest);
    } else {
      var received := ReadData(input, data);
      ReadStep(input, data, line, rest);
      text, end := ReadDataSplits(rest, data + line);
      OneLineMore(line, text, end + received.rest, data);
      text := line + text;
    }
  }

  lemma OneLineMore(line: string, text: string, tail: string, data: string)
    ensures line + (text + tail) == (line + text) + tail && (data + line) + text == data + (line + text)
  {
    Regroup(line, text, tail);
    Regroup(data, line, text);
  }

  lemma EndIsLine(end: string, rest: string)
    requires IsEnd(end)
    ensures FirstLine(end + rest) == end && (end + rest)[|end|..] == rest
  {
    OneLine(end);
    FirstLineAppend(end, rest);
  }

  lemma ReadToEnd(data: string, end: string, rest: string)
    requires Accepted(data) && IsEnd(end)
    ensures ReadData(data + (end + rest), "") == Received(data, rest)
  {
    ReadAccepted(data, end + rest, "");
    Nothing(data);
    EndIsLine(end, rest);
  }

  lemma ReceivedIff(input: string, data: string, rest: string)
    ensures ReadData(input, "") == Received(data, rest) <==>
              Accepted(data) && exists end :: IsEnd(end) && input == data + (end + rest)
  {
    if ReadData(input, "") == Received(data, rest) {
      ReadDataAccepts(input, "");
      var text, end := ReadDataSplits(input, "");
      Nothing(text);
    }
    if end :| Accepted(data) && IsEnd(end) && input == data + (end + rest) {
      ReadToEnd(data, end, rest);
    }
  }

  /** Whole lines, none of which is a dot alone. */
  ghost predicate WithoutEnd(data: string) {
    && (data == "" || data[|data| - 1] == '\n')
    && forall i :: 0 <= i < |Lines(data)| ==> !IsDotAlone(Lines(data)[i])
  }

  /** A dot and nothing else, up to CRLF or LF. */
  predicate IsDotAlone(line: string) {
    || (|line| == 3 && line[0] == '.' && line[1] == '\r' && line[2] == '\n')
    || (|line| == 2 && line[0] == '.' && line[1] == '\n')
  }

  lemma IsEndIff(line: string)
    ensures IsEnd(line) <==> IsDotAlone(line)
  {
  }

  lemma AcceptedIsWithoutEnd(data: string)
    ensures Accepted(data) <==> WithoutEnd(data)
  {
    forall i | 0 <= i < |Lines(data)|
      ensures IsEnd(Lines(data)[i]) <==> IsDotAlone(Lines(data)[i])
    {
      IsEndIff(Lines(data)[i]);
    }
  }

  /**
   * The reader receives exactly the whole lines before the first line that is a dot alone, ended by CRLF or by LF,
   * and leaves exactly what follows that line.
   */
  lemma ReadDataIff(input: string, data: string, rest: string)
    ensures ReadData(input, "") == Received(data, rest) <==>
              WithoutEnd(data) && (input == data + (".\r\n" + rest) || input == data + (".\n" + rest))
  {
    ReceivedIff(input, data, rest);
    AcceptedIsWithoutEnd(data);
    assert IsEnd(".\r\n") && IsEnd(".\n");
    assert forall end :: IsEnd(end) ==> end == ".\r\n" || end == ".\n";
  }

  // A reader that follows RFC 5321 to the letter ends the data only at CRLF "." CRLF.

  predicate EndsAt(stream: string, i: nat) {
    && i + 5 <= |stream| && stream[i] == '\r' && stream[i + 1] == '\n'
    && stream[i + 2] == '.' && stream[i + 3] == '\r' && stream[i + 4] == '\n'
  }

  /** A line ".CRLF" that starts inside whole lines is one of them. */
  lemma {:induction false} DotLineAmong(text: string, i: nat)
    requires text == "" || Complete(text)
    requires i < |text| && (i == 0 || text[i - 1] == '\n') && text[i] == '.'
    requires i + 1 < |text| && text[i + 1] == '\r' && i + 2 < |text| && text[i + 2] == '\n'
    ensures DOT_CRLF in Lines(text)
    decreases |text|
  {
    var line := FirstLine(text);
    if i == 0 {
      assert FirstLine(text[1..][1..]) == "\n";
      assert FirstLine(text[1..]) == CRLF;
      assert FirstLine(text) == DOT_CRLF;
    } else {
      LineHasOneNewline(text);
      assert i >= |line|;
      DotLineAmong(text[|line|..], i - |line|);
      assert DOT_CRLF in Lines(text[|line|..]);
    }
  }

  lemma {:induction false} LineHasOneNewline(text: string)
    ensures forall k :: 0 <= k < |FirstLine(text)| - 1 ==> text[k] != '\n'
  {
    if text != "" && text[0] != '\n' {
      LineHasOneNewline(text[1..]);
      assert forall k :: 1 <= k < |FirstLine(text)| - 1 ==> text[k] == text[1..][k - 1];
    }
  }

  lemma AcceptedHasNoDotLine(data: string, i: nat)
    requires Accepted(data) && i < |data| && data[i] == '.' && (i == 0 || data[i - 1] == '\n')
    ensures i + 1 < |data| && (data[i + 1] == '\r' ==> i + 2 < |data| && data[i + 2] != '\n')
  {
    assert data[|data| - 1] == '\n';
    if i + 2 < |data| && data[i + 1] == '\r' && data[i + 2] == '\n' {
      DotLineAmong(data, i);
    }
  }

  lemma StreamCharacters(data: string)
    ensures var stream := CRLF + Wire(data); var n := |data| + 2;
            && |stream| == n + 5
            && stream[0] == '\r' && stream[1] == '\n' && (forall k :: 0 <= k < |data| ==> stream[k + 2] == data[k])
            && stream[n] == '\r' && stream[n + 1] == '\n' && stream[n + 2] == '.'
            && stream[n + 3] == '\r' && stream[n + 4] == '\n'
  {
    assert CRLF + Wire(data) == CRLF + data + CRLF + DOT_CRLF;
  }

  /** Such a reader, which has just read the DATA line's CRLF, also stops only at the very end. */
  lemma StrictReaderStopsAtEnd(input: string, i: nat)
    requires ReadData(input, "").Received?
    ensures var data := ReadData(input, "").data; EndsAt(CRLF + Wire(data), i) <==> i == |data| + 2
  {
    var data := ReadData(input, "").data;
    var stream := CRLF + Wire(data);
    ReadDataAccepts(input, "");
    StreamCharacters(data);
    if i < |data| && stream[i + 1] == '\n' && stream[i + 2] == '.' {
      AcceptedHasNoDotLine(data, i);
    }
  }

  // Its text: it deletes the first character of a line that begins with a dot (section 4.5.2 of RFC 5321).

  /** What such a reader makes of a stream; start says whether the stream is at the beginning of a line. */
  function StrictRead(stream: string, start: bool, text: string): DataRead
    decreases |stream|
  {
    if stream == "" then Broken
    else if start && stream[0] == '.' then
      if DOT_CRLF <= stream then Received(text, stream[|DOT_CRLF|..]) else StrictRead(stream[1..], false, text)
    else if CRLF <= stream then StrictRead(stream[|CRLF|..], true, text + CRLF)
    else StrictRead(stream[1..], false, text + [stream[0]])
  }

  /** The data without the first dot of each line that begins with one; only CRLF ends a line. */
  function Unstuffed(data: string, start: bool): string
    decreases |data|
  {
    if data == "" then ""
    else if start && data[0] == '.' then Unstuffed(data[1..], false)
    else if CRLF <= data then CRLF + Unstuffed(data[|CRLF|..], true)
    else [data[0]] + Unstuffed(data[1..], false)
  }

  /** The rest of stored data: whole lines, with no dot on a line of its own. */
  ghost predicate NoDotLine(data: string, start: bool) {
    && (data == "" || Complete(data))
    && (start ==> !(DOT_CRLF <= data))
    && forall i :: 0 < i < |data| && data[i - 1] == '\n' ==> !(DOT_CRLF <= data[i..])
  }

  lemma NoDotLineTail(data: string, start: bool, n: nat, start': bool)
    requires NoDotLine(data, start) && 0 < n <= |data| && (start' ==> data[n - 1] == '\n')
    ensures NoDotLine(data[n..], start')
  {
    var tail := data[n..];
    forall i | 0 < i < |tail| && tail[i - 1] == '\n'
      ensures !(DOT_CRLF <= tail[i..])
    {
      assert tail[i..] == data[n + i..] && data[n + i - 1] == '\n';
    }
  }

  lemma AcceptedNoDotLine(data: string)
    requires Accepted(data)
    ensures NoDotLine(data, true)
  {
    forall i | 0 <= i < |data| && (i == 0 || data[i - 1] == '\n')
      ensures !(DOT_CRLF <= data[i..])
    {
      if DOT_CRLF <= data[i..] {
        assert data[i] == DOT_CRLF[0] && data[i + 1] == DOT_CRLF[1] && data[i + 2] == DOT_CRLF[2];
        AcceptedHasNoDotLine(data, i);
      }
    }
    assert data[0..] == data;
  }

  lemma StrictReadEnd(start: bool, more: string, text: string)
    ensures StrictRead(CRLF + DOT_CRLF + more, start, text) == Received(text + CRLF, more)
  {
    var stream := CRLF + DOT_CRLF + more;
    assert stream[|CRLF|..] == DOT_CRLF + more && (DOT_CRLF + more)[|DOT_CRLF|..] == more;
    assert DOT_CRLF <= DOT_CRLF + more && CRLF <= stream && stream[0] == '\r';
  }

  /** What begins whole lines followed by a line end begins the lines themselves. */
  lemma BeginsWithin(data: string, more: string, start: bool)
    requires NoDotLine(data, start) && data != ""
    ensures var stream := data + (CRLF + DOT_CRLF + more);
            && stream[0] == data[0] && stream[1..] == data[1..] + (CRLF + DOT_CRLF + more)
            && (start ==> !(DOT_CRLF <= stream))
            && (CRLF <= stream <==> CRLF <= data)
            && (CRLF <= data ==> stream[|CRLF|..] == data[|CRLF|..] + (CRLF + DOT_CRLF + more))
  {
    var stream := data + (CRLF + DOT_CRLF + more);
    assert data[|data| - 1] == '\n';
    assert |data| >= 3 ==> stream[..3] == data[..3];
    assert |data| >= 2 ==> stream[..2] == data[..2];
    assert DOT_CRLF <= stream ==> stream[..3] == DOT_CRLF && stream[0] == '.' && stream[1] == '\r';
    assert CRLF <= stream ==> stream[..2] == CRLF && stream[0] == '\r';
  }

  lemma {:induction false} StrictReadStored(data: string, start: bool, more: string, text: string)
    requires NoDotLine(data, start)
    ensures StrictRead(data + (CRLF + DOT_CRLF + more), start, text)
         == Received(text + Unstuffed(data, start) + CRLF, more)
    decreases |data|
  {
    var tail := CRLF + DOT_CRLF + more;
    if data == "" {
      assert data + tail == tail && text + Unstuffed(data, start) == text;
      StrictReadEnd(start, more, text);
    } else {
      BeginsWithin(data, more, start);
      if start && data[0] == '.' {
        NoDotLineTail(data, start, 1, false);
        StrictReadStored(data[1..], false, more, text);
      } else if CRLF <= data {
        assert data[1] == CRLF[1];
        NoDotLineTail(data, start, 2, true);
        StrictReadStored(data[2..], true, more, text + CRLF);
        assert text + CRLF + Unstuffed(data[2..], true) == text + (CRLF + Unstuffed(data[2..], true));
      } else {
        NoDotLineTail(data, start, 1, false);
        StrictReadStored(data[1..], false, more, text + [data[0]]);
        assert text + [data[0]] + Unstuffed(data[1..], false) == text + ([data[0]] + Unstuffed(data[1..], false));
      }
    }
  }

  /** Such a reader upstream gets the stored data without the leading dots, and one line end more. */
  lemma RelayUnstuffed(input: string, more: string)
    requires ReadData(input, "").Received?
    ensures var data := ReadData(input, "").data;
            StrictRead(Wire(data) + more, true, "") == Received(Unstuffed(data, true) + CRLF, more)
  {
    var data := ReadData(input, "").data;
    ReadDataAccepts(input, "");
    AcceptedNoDotLine(data);
    assert Wire(data) + more == data + (CRLF + DOT_CRLF + more);
    StrictReadStored(data, true, more, "");
    assert "" + Unstuffed(data, true) == Unstuffed(data, true);
  }

  /** A line of the data, as CRLF ends it, begins with a dot. */
  ghost predicate HasLeadingDot(data: string, start: bool) {
    exists i :: 0 <= i < |data| && data[i] == '.' && StartsLine(data, i, start)
  }

  predicate StartsLine(data: string, i: nat, start: bool)
    requires i <= |data|
  {
    if i == 0 then start else i >= 2 && data[i - 2] == '\r' && data[i - 1] == '\n'
  }

  lemma {:induction false} UnstuffedShorter(data: string, start: bool)
    ensures |Unstuffed(data, start)| <= |data|
    decreases |data|
  {
    if data != "" {
      if start && data[0] == '.' {
        UnstuffedShorter(data[1..], false);
      } else if CRLF <= data {
        UnstuffedShorter(data[2..], true);
      } else {
        UnstuffedShorter(data[1..], false);
      }
    }
  }

  lemma LeadingDotTail(data: string, start: bool, n: nat)
    requires n <= |data| && ((n == 1 && !(CRLF <= data)) || (n == 2 && CRLF <= data))
    requires !(start && data != "" && data[0] == '.')
    ensures HasLeadingDot(data, start) <==> HasLeadingDot(data[n..], n == 2)
  {
    var tail := data[n..];
    assert |data| >= 2 && data[0] == '\r' && data[1] == '\n' ==> data[..2] == CRLF;
    if i :| 0 <= i < |data| && data[i] == '.' && StartsLine(data, i, start) {
      assert i >= n && tail[i - n] == '.' && StartsLine(tail, i - n, n == 2);
    }
    if i :| 0 <= i < |tail| && tail[i] == '.' && StartsLine(tail, i, n == 2) {
      assert data[i + n] == '.' && StartsLine(data, i + n, start);
    }
  }

  /** Nothing is deleted exactly if no line begins with a dot. */
  lemma {:induction false} UnstuffedSameIff(data: string, start: bool)
    ensures Unstuffed(data, start) == data <==> !HasLeadingDot(data, start)
    decreases |data|
  {
    if data != "" {
      if start && data[0] == '.' {
        UnstuffedShorter(data[1..], false);
        assert StartsLine(data, 0, start);
      } else if CRLF <= data {
        UnstuffedSameIff(data[2..], true);
        LeadingDotTail(data, start, 2);
        assert data == CRLF + data[2..];
        assert Unstuffed(data, start)[2..] == Unstuffed(data[2..], true);
      } else {
        UnstuffedSameIff(data[1..], false);
        LeadingDotTail(data, start, 1);
        assert data == [data[0]] + data[1..];
        assert Unstuffed(data, start)[1..] == Unstuffed(data[1..], false);
      }
    }
  }
}
