/** Reading text line by line, as ReadString with a newline delimiter does. */
module TextLines {
  /** What ReadString returns: the text up to and including the next newline, or the rest at the end of the file. */
  function FirstLine(text: string): (line: string)
    ensures |line| <= |text| && line == text[..|line|]
    ensures text != "" ==> line != ""
  {
    if text == "" then "" else if text[0] == '\n' then "\n" else [text[0]] + FirstLine(text[1..])
  }

  predicate Complete(line: string) {
    line != "" && line[|line| - 1] == '\n'
  }

  function Lines(text: string): seq<string>
    decreases |text|
  {
    if text == "" then [] else [FirstLine(text)] + Lines(text[|FirstLine(text)|..])
  }

  function Concat(parts: seq<string>): string {
    if parts == [] then "" else parts[0] + Concat(parts[1..])
  }

  lemma {:induction false} NoNewline(text: string)
    requires !Complete(FirstLine(text))
    ensures FirstLine(text) == text
  {
    if text != "" && text[0] != '\n' {
      var rest := FirstLine(text[1..]);
      assert FirstLine(text) == [text[0]] + rest;
      assert rest != "" ==> FirstLine(text)[|rest|] == rest[|rest| - 1];
      NoNewline(text[1..]);
    }
  }

  lemma ConcatCons(part: string, parts: seq<string>)
    ensures Concat([part] + parts) == part + Concat(parts)
  {
    assert ([part] + parts)[1..] == parts;
  }

  lemma {:induction false} ConcatAppend(a: seq<string>, b: seq<string>)
    ensures Concat(a + b) == Concat(a) + Concat(b)
  {
    if a == [] {
      assert a + b == b;
    } else {
      ConcatAppend(a[1..], b);
      ConcatCons(a[0], a[1..] + b);
      assert a + b == [a[0]] + (a[1..] + b);
      assert a[0] + (Concat(a[1..]) + Concat(b)) == (a[0] + Concat(a[1..])) + Concat(b);
    }
  }

  lemma ConcatOne(m: string)
    ensures Concat([m]) == m
  {
    assert Concat([m]) == m + Concat([]);
  }

  lemma LinesCons(text: string, line: string, rest: string)
    requires text != "" && line == FirstLine(text) && rest == text[|line|..]
    ensures Lines(text) == [line] + Lines(rest) && text == line + rest
  {
  }

  lemma {:induction false} LinesConcat(text: string)
    ensures Concat(Lines(text)) == text
    decreases |text|
  {
    if text != "" {
      var rest := text[|FirstLine(text)|..];
      LinesConcat(rest);
      LinesCons(text, FirstLine(text), rest);
      ConcatCons(FirstLine(text), Lines(rest));
    }
  }

  lemma {:induction false} FirstLineAppend(a: string, b: string)
    requires Complete(a)
    ensures FirstLine(a + b) == FirstLine(a)
  {
    assert (a + b)[0] == a[0];
    if a[0] != '\n' {
      assert (a + b)[1..] == a[1..] + b;
      FirstLineAppend(a[1..], b);
    }
  }

  lemma {:induction false} LinesAppend(a: string, b: string)
    requires a == "" || Complete(a)
    ensures Lines(a + b) == Lines(a) + Lines(b)
    decreases |a|
  {
    if a == "" {
      assert a + b == b;
    } else {
      var n := |FirstLine(a)|;
      FirstLineAppend(a, b);
      assert (a + b)[n..] == a[n..] + b;
      LinesAppend(a[n..], b);
    }
  }

  lemma {:induction false} OneLine(line: string)
    requires Complete(line) && forall i :: 0 <= i < |line| - 1 ==> line[i] != '\n'
    ensures FirstLine(line) == line && Lines(line) == [line]
  {
    if |line| > 1 {
      OneLine(line[1..]);
    }
  }
}
