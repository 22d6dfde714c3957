/** What each kind of line does to the events of a whole stream: comments and
    unknown fields nothing, carriage returns before the line feed nothing, text
    behind the last line feed nothing. */
module SseLines {
  import opened Prelude
  import opened SseReader
  import opened SseRoundTrip

  /** Text that a further line can follow. */
  predicate AtLineStart(a: string) {
    a == "" || a[|a| - 1] == '\n'
  }

  lemma NothingRemains(a: string)
    requires AtLineStart(a)
    ensures Remainder(a) == ""
  {
    NoIndex("", '\n');
    if a != "" {
      var front := a[..|a| - 1];
      assert a == front + "\n";
      SplitAppend(front, "\n");
      SplitPieces(front, '\n');
      SplitAtFirst(Remainder(front), '\n', "");
      assert Remainder(front) + "\n" == Remainder(front) + "\n" + "";
    }
  }

  lemma LinesJoin(a: string, b: string)
    requires AtLineStart(a)
    ensures CompleteLines(a + b) == CompleteLines(a) + CompleteLines(b)
  {
    NothingRemains(a);
    SplitAppend(a, b);
    assert "" + b == b;
  }

  /** What has been read of `a` is all that matters for what follows it. */
  lemma DecodeJoin(a: string, b: string)
    requires AtLineStart(a)
    ensures Decode(a + b) == TakeLines(TakeLines(START, CompleteLines(a)), CompleteLines(b)).yielded
  {
    LinesJoin(a, b);
    TakeLinesConcat(START, CompleteLines(a), CompleteLines(b));
  }

  lemma OneLine(p: Parser, line: string)
    ensures TakeLines(p, [line]) == TakeLine(p, line)
  {
    TakeLinesSnoc(p, [], line);
    assert [] + [line] == [line];
  }

  lemma LineTakenFirst(p: Parser, line: string, b: string)
    requires '\n' !in line
    ensures TakeLines(p, CompleteLines(line + "\n" + b)) == TakeLines(TakeLine(p, line), CompleteLines(b))
  {
    LineInFront(line, b);
    TakeLinesConcat(p, [line], CompleteLines(b));
    OneLine(p, line);
  }

  /** A line between the two texts is taken between them. */
  lemma DecodeLine(a: string, line: string, b: string)
    requires AtLineStart(a) && '\n' !in line
    ensures var p := TakeLines(START, CompleteLines(a));
      Decode(a + line + "\n" + b) == TakeLines(TakeLine(p, line), CompleteLines(b)).yielded
  {
    var text := line + "\n" + b;
    DecodeJoin(a, text);
    LineTakenFirst(TakeLines(START, CompleteLines(a)), line, b);
    assert a + line + "\n" + b == a + text by {
      AssocSeq(a, line, "\n");
      AssocSeq(a, line + "\n", b);
    }
  }

  /** Two lines that the parser takes alike are interchangeable anywhere. */
  lemma LinesInterchange(a: string, line: string, other: string, b: string)
    requires AtLineStart(a) && '\n' !in line && '\n' !in other
    requires forall p: Parser :: TakeLine(p, line) == TakeLine(p, other)
    ensures Decode(a + line + "\n" + b) == Decode(a + other + "\n" + b)
  {
    DecodeLine(a, line, b);
    DecodeLine(a, other, b);
  }

  // ---- Lines that do not matter --------------------------------------------

  /** Neither blank nor one of the two fields: a comment, `id:`, `retry:` or
      anything else. */
  predicate Ignored(line: string) {
    var cut := DropCr(line);
    cut != "" && !StartsWith(cut, "event:") && !StartsWith(cut, "data:")
  }

  /** Such a line changes nothing, wherever it stands. */
  lemma IgnoredLine(a: string, line: string, b: string)
    requires AtLineStart(a) && '\n' !in line && Ignored(line)
    ensures Decode(a + line + "\n" + b) == Decode(a + b)
  {
    DecodeLine(a, line, b);
    DecodeJoin(a, b);
  }

  /** For example: a keep-alive comment and its blank line yield nothing. */
  lemma KeepAlive()
    ensures Decode(":\n\n") == []
  {
    IgnoredLine("", ":", "\n");
    DecodeLine("", "", "");
    NoIndex("", '\n');
    assert "" + ":" + "\n" + "\n" == ":\n\n" && "" + "\n" == "\n" == "" + "" + "\n" + "";
  }

  lemma EndingTaken(p: Parser, line: string)
    requires line == "" || line[|line| - 1] != '\r'
    ensures TakeLine(p, line + "\r") == TakeLine(p, line)
  {
    assert DropCr(line + "\r") == line == DropCr(line);
  }

  /** A carriage return before a line feed changes nothing. */
  lemma CarriageReturn(a: string, line: string, b: string)
    requires AtLineStart(a) && '\n' !in line && (line == "" || line[|line| - 1] != '\r')
    ensures Decode(a + (line + "\r") + "\n" + b) == Decode(a + line + "\n" + b)
  {
    forall p: Parser
      ensures TakeLine(p, line + "\r") == TakeLine(p, line)
    {
      EndingTaken(p, line);
    }
    LinesInterchange(a, line + "\r", line, b);
  }

  /** Nor does an unfinished last line. */
  lemma UnfinishedLine(a: string, tail: string)
    requires AtLineStart(a) && '\n' !in tail
    ensures Decode(a + tail) == Decode(a)
  {
    DecodeJoin(a, tail);
    NoIndex(tail, '\n');
  }

  // ---- Lines that do -------------------------------------------------------

  /** A data line gives up one leading white space, if it has one, and its
      carriage return. */
  lemma DataLine(p: Parser, x: string)
    ensures var rest := if x != "" && IsSpace(x[0]) then x[1..] else x;
      TakeLine(p, "data:" + x) == p.(data := p.data + [DropCr(rest)])
  {
    var cut := DropCr("data:" + x);
    assert ("data:" + x)[|x| + 4] == if x == "" then ':' else x[|x| - 1];
    assert cut == "data:" + DropCr(x);
    assert cut[0] == 'd' && cut[..5] == "data:" && cut[5..] == DropCr(x);
    StartsWithHead(cut, "event:");
    if x != "" && IsSpace(x[0]) && |x| > 1 {
      assert DropCr(x)[1..] == DropCr(x[1..]);
    }
  }

  /** An event line names the event that follows, without white space around. */
  lemma EventLine(p: Parser, x: string)
    ensures TakeLine(p, "event:" + x) == p.(event := Trim(DropCr(x)))
  {
    var cut := DropCr("event:" + x);
    assert ("event:" + x)[|x| + 5] == if x == "" then ':' else x[|x| - 1];
    assert cut == "event:" + DropCr(x);
    assert cut[..6] == "event:" && cut[6..] == DropCr(x);
  }

  predicate AllSpace(s: string) {
    forall c :: c in s ==> IsSpace(c)
  }

  lemma {:induction false} TrimStartCuts(s: string) returns (lead: string)
    ensures s == lead + TrimStart(s) && AllSpace(lead)
  {
    lead := "";
    if s != "" && IsSpace(s[0]) {
      var l := TrimStartCuts(s[1..]);
      lead := [s[0]] + l;
      assert s == [s[0]] + s[1..];
    } else {
      assert s == "" + s;
    }
  }

  lemma {:induction false} TrimEndCuts(s: string) returns (tail: string)
    ensures s == TrimEnd(s) + tail && AllSpace(tail)
  {
    tail := "";
    if s != "" && IsSpace(s[|s| - 1]) {
      var n := |s| - 1;
      var l := TrimEndCuts(s[..n]);
      tail := l + [s[n]];
      assert s == s[..n] + [s[n]];
      assert TrimEnd(s) + tail == TrimEnd(s) + l + [s[n]];
    } else {
      assert s == s + "";
    }
  }

  /** Trimming takes white space from both ends and nothing else, and leaves none
      there. */
  lemma TrimExact(s: string) returns (lead: string, tail: string)
    ensures s == lead + Trim(s) + tail && AllSpace(lead) && AllSpace(tail)
    ensures Trim(s) != "" ==> !IsSpace(Trim(s)[0]) && !IsSpace(Trim(s)[|Trim(s)| - 1])
  {
    lead := TrimStartCuts(s);
    tail := TrimEndCuts(TrimStart(s));
    TrimStartFacts(s);
    TrimEndFacts(TrimStart(s));
    assert lead + Trim(s) + tail == lead + (Trim(s) + tail);
    assert Trim(s) != "" ==> Trim(s)[0] == TrimStart(s)[0];
  }

  lemma BlankLine(p: Parser)
    ensures CompleteLines("\n") == [""] && TakeLines(p, CompleteLines("\n")) == TakeLine(p, "")
  {
    LineInFront("", "");
    NoIndex("", '\n');
    assert "" + "\n" + "" == "\n";
    OneLine(p, "");
  }

  /** Nothing at all, or text that ends in a blank line. */
  predicate BetweenEvents(a: string) {
    a == "" || (a[|a| - 1] == '\n' && AtLineStart(a[..|a| - 1]))
  }

  /** There the parser has no name and no data. */
  lemma NothingUnderConstruction(a: string)
    requires BetweenEvents(a)
    ensures TakeLines(START, CompleteLines(a)) == Parser("message", [], Decode(a))
  {
    NoIndex("", '\n');
    if a != "" {
      var front := a[..|a| - 1];
      assert a == front + "\n";
      BlankLine(START);
      LinesJoin(front, "\n");
      TakeLinesSnoc(START, CompleteLines(front), "");
    }
  }

  lemma FieldOnOneLine(field: string, x: string)
    requires '\n' !in field && '\n' !in x
    ensures '\n' !in field + x
  {
  }

  /** A block of one data line, without an `event:` line: an event `message`. */
  lemma BlockWithoutName(a: string, x: string)
    requires BetweenEvents(a) && '\n' !in x && (x == "" || !IsSpace(x[0]))
    ensures Decode(a + ("data:" + x) + "\n" + "\n") == Decode(a) + [SseEvent("message", DropCr(x))]
  {
    NothingUnderConstruction(a);
    var p := TakeLines(START, CompleteLines(a));
    var raw := "data:" + x;
    FieldOnOneLine("data:", x);
    DecodeLine(a, raw, "\n");
    DataLine(p, x);
    BlankLine(TakeLine(p, raw));
    assert [] + [DropCr(x)] == [DropCr(x)];
    assert TakeLine(p, raw) == Parser("message", [DropCr(x)], Decode(a));
  }
}
