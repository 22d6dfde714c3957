/** Writing events in the text/event-stream format and reading them back: the
    reader returns the same list exactly when every name is trimmed and on one
    line and no data line ends in a carriage return. */
module SseRoundTrip {
  import opened Prelude
  import opened SseReader

  // ---- The writer ----------------------------------------------------------

  function SplitLines(s: string): (lines: seq<string>)
    ensures lines != []
  {
    Split(s, '\n')
  }

  function EncodeData(lines: seq<string>): string {
    if lines == [] then "" else "data: " + lines[0] + "\n" + EncodeData(lines[1..])
  }

  function EncodeEvent(e: SseEvent): string {
    "event: " + e.event + "\n" + EncodeData(SplitLines(e.data)) + "\n"
  }

  function Encode(events: seq<SseEvent>): string {
    if events == [] then "" else EncodeEvent(events[0]) + Encode(events[1..])
  }

  // ---- Lines ---------------------------------------------------------------

  lemma {:induction false} SplitJoin(s: string)
    ensures JoinLines(SplitLines(s)) == s
    ensures forall l :: l in SplitLines(s) ==> '\n' !in l
    decreases |s|
  {
    var i := IndexOf(s, '\n');
    SplitPieces(s, '\n');
    if i < |s| {
      FirstCut(s, '\n');
      SplitJoin(s[i + 1..]);
      assert SplitLines(s)[1..] == SplitLines(s[i + 1..]);
    }
  }

  function DropCrs(lines: seq<string>): (r: seq<string>)
    ensures |r| == |lines|
  {
    if lines == [] then [] else [DropCr(lines[0])] + DropCrs(lines[1..])
  }

  lemma JoinLinesStep(line: string, rest: seq<string>)
    ensures |JoinLines([line] + rest)| == |line| + if rest == [] then 0 else 1 + |JoinLines(rest)|
  {
    assert ([line] + rest)[1..] == rest;
  }

  lemma {:induction false} DropCrsLength(lines: seq<string>)
    ensures |JoinLines(DropCrs(lines))| <= |JoinLines(lines)|
    ensures |JoinLines(DropCrs(lines))| == |JoinLines(lines)| <==> DropCrs(lines) == lines
  {
    if lines != [] {
      var rest, kept := lines[1..], DropCrs(lines[1..]);
      DropCrsLength(rest);
      assert DropCrs(lines) == [DropCr(lines[0])] + kept && lines == [lines[0]] + rest;
      JoinLinesStep(lines[0], rest);
      JoinLinesStep(DropCr(lines[0]), kept);
      assert [DropCr(lines[0])] + kept == [lines[0]] + rest <==> DropCr(lines[0]) == lines[0] && kept == rest by {
        assert ([DropCr(lines[0])] + kept)[1..] == kept && ([lines[0]] + rest)[1..] == rest;
      }
    }
  }

  // ---- Trimming ------------------------------------------------------------

  lemma {:induction false} TrimEndFacts(s: string)
    ensures TrimEnd(s) <= s
    ensures TrimEnd(s) != "" ==> !IsSpace(TrimEnd(s)[|TrimEnd(s)| - 1])
    ensures s != "" && !IsSpace(s[|s| - 1]) ==> TrimEnd(s) == s
  {
    if s != [] && IsSpace(s[|s| - 1]) {
      TrimEndFacts(s[..|s| - 1]);
    }
  }

  lemma {:induction false} TrimStartFacts(s: string)
    ensures TrimStart(s) != "" ==> !IsSpace(TrimStart(s)[0])
    ensures s != "" && !IsSpace(s[0]) ==> TrimStart(s) == s
    ensures forall c :: c in TrimStart(s) ==> c in s
  {
    if s != [] && IsSpace(s[0]) {
      TrimStartFacts(s[1..]);
    }
  }

  lemma TrimFacts(s: string)
    ensures Trim(Trim(s)) == Trim(s)
    ensures forall c :: c in Trim(s) ==> c in s
    ensures Trim(s) != "" ==> !IsSpace(Trim(s)[|Trim(s)| - 1])
  {
    var t := TrimStart(s);
    TrimStartFacts(s);
    TrimEndFacts(t);
    TrimStartFacts(Trim(s));
    TrimEndFacts(Trim(s));
  }

  /** A name the reader can produce. */
  predicate GoodName(name: string) {
    Trim(name) == name && '\n' !in name
  }

  // ---- Line by line --------------------------------------------------------

  /** The reader after a text that ends in a line feed. */
  predicate Leads(p: Parser, text: string, q: Parser) {
    Feed(State("", p), text) == State("", q)
  }

  lemma LeadsOn(p: Parser, a: string, q: Parser, b: string, r: Parser)
    requires Leads(p, a, q) && Leads(q, b, r)
    ensures Leads(p, a + b, r)
  {
    FeedConcat(State("", p), a, b);
  }

  lemma FeedLine(p: Parser, raw: string)
    requires '\n' !in raw
    ensures Leads(p, raw + "\n", TakeLine(p, raw))
  {
    assert "" + (raw + "\n") == raw + ['\n'] + "";
    SplitAtFirst(raw, '\n', "");
    assert Split(raw + ['\n'] + "", '\n') == [raw, ""];
    assert [raw, ""][..1] == [raw] && [raw][..0] == [];
    assert TakeLines(p, [raw]) == TakeLine(TakeLines(p, []), raw);
  }

  lemma TakeName(p: Parser, name: string)
    requires GoodName(name)
    ensures TakeLine(p, "event: " + name) == p.(event := name)
  {
    var raw := "event: " + name;
    TrimFacts(name);
    assert raw[|raw| - 1] == if name == "" then ' ' else name[|name| - 1];
    assert DropCr(raw) == raw;
    assert raw[..6] == "event:" && raw[6..] == [' '] + name;
    assert TrimStart([' '] + name) == TrimStart(name) by {
      assert ([' '] + name)[1..] == name;
    }
  }

  lemma TakeData(p: Parser, line: string)
    ensures TakeLine(p, "data: " + line) == p.(data := p.data + [DropCr(line)])
  {
    var raw := "data: " + line;
    assert raw[|raw| - 1] == if line == "" then ' ' else line[|line| - 1];
    var cut := DropCr(raw);
    assert cut == "data: " + DropCr(line);
    assert cut[0] == 'd' && cut[..5] == "data:" && cut[5..] == [' '] + DropCr(line);
    assert ([' '] + DropCr(line))[1..] == DropCr(line);
    StartsWithHead(cut, "event:");
  }

  lemma FeedDataLine(p: Parser, line: string)
    requires '\n' !in line
    ensures Leads(p, "data: " + line + "\n", p.(data := p.data + [DropCr(line)]))
  {
    var raw := "data: " + line;
    assert '\n' !in raw by {
      assert forall i :: 0 <= i < 6 ==> "data: "[i] != '\n';
      assert forall i :: 6 <= i < |raw| ==> raw[i] == line[i - 6];
    }
    FeedLine(p, raw);
    TakeData(p, line);
  }

  lemma {:induction false} FeedData(p: Parser, lines: seq<string>)
    requires forall l :: l in lines ==> '\n' !in l
    ensures Leads(p, EncodeData(lines), p.(data := p.data + DropCrs(lines)))
    decreases |lines|
  {
    if lines == [] {
      FeedNothing(p, "");
      assert p.data + DropCrs(lines) == p.data;
    } else {
      assert lines[0] in lines;
      var next := p.(data := p.data + [DropCr(lines[0])]);
      FeedDataLine(p, lines[0]);
      FeedData(next, lines[1..]);
      AssocSeq(p.data, [DropCr(lines[0])], DropCrs(lines[1..]));
      LeadsOn(p, "data: " + lines[0] + "\n", next, EncodeData(lines[1..]), p.(data := p.data + DropCrs(lines)));
    }
  }

  /** The reader between two events. */
  function Between(yielded: seq<SseEvent>): Parser {
    Parser("message", [], yielded)
  }

  /** What arrives when `e` is sent. */
  function Received(e: SseEvent): SseEvent {
    SseEvent(e.event, JoinLines(DropCrs(SplitLines(e.data))))
  }

  lemma FeedEvent(yielded: seq<SseEvent>, e: SseEvent)
    requires GoodName(e.event)
    ensures Leads(Between(yielded), EncodeEvent(e), Between(yielded + [Received(e)]))
  {
    var p, name, lines := Between(yielded), "event: " + e.event, SplitLines(e.data);
    SplitJoin(e.data);
    assert '\n' !in name by {
      assert forall i :: 0 <= i < 7 ==> "event: "[i] != '\n';
      assert forall i :: 7 <= i < |name| ==> name[i] == e.event[i - 7];
    }
    FeedLine(p, name);
    TakeName(p, e.event);
    var named := p.(event := e.event);
    FeedData(named, lines);
    var full := named.(data := DropCrs(lines));
    assert [] + DropCrs(lines) == DropCrs(lines);
    FeedLine(full, "");
    assert "" + "\n" == "\n";
    LeadsOn(p, name + "\n", named, EncodeData(lines), full);
    LeadsOn(p, name + "\n" + EncodeData(lines), full, "\n", Between(yielded + [Received(e)]));
  }

  function ReceivedAll(events: seq<SseEvent>): (r: seq<SseEvent>)
    ensures |r| == |events|
    ensures forall i :: 0 <= i < |r| ==> r[i] == Received(events[i])
  {
    if events == [] then [] else [Received(events[0])] + ReceivedAll(events[1..])
  }

  lemma {:induction false} FeedEvents(yielded: seq<SseEvent>, events: seq<SseEvent>)
    requires forall e :: e in events ==> GoodName(e.event)
    ensures Leads(Between(yielded), Encode(events), Between(yielded + ReceivedAll(events)))
    decreases |events|
  {
    if events == [] {
      FeedNothing(Between(yielded), "");
      assert yielded + ReceivedAll(events) == yielded;
    } else {
      assert events[0] in events;
      var now := yielded + [Received(events[0])];
      FeedEvent(yielded, events[0]);
      FeedEvents(now, events[1..]);
      AssocSeq(yielded, [Received(events[0])], ReceivedAll(events[1..]));
      LeadsOn(Between(yielded), EncodeEvent(events[0]), Between(now), Encode(events[1..]),
              Between(yielded + ReceivedAll(events)));
    }
  }

  // ---- Names the reader produces -------------------------------------------

  ghost predicate GoodNames(p: Parser) {
    GoodName(p.event) && forall e :: e in p.yielded ==> GoodName(e.event)
  }

  lemma MessageGood()
    ensures GoodName("message")
  {
    TrimStartFacts("message");
    TrimEndFacts("message");
  }

  lemma TakeLineGood(p: Parser, raw: string)
    requires GoodNames(p) && '\n' !in raw
    ensures GoodNames(TakeLine(p, raw))
  {
    var line := DropCr(raw);
    if |line| >= 6 {
      TrimFacts(line[6..]);
    }
    MessageGood();
  }

  lemma {:induction false} TakeLinesGood(p: Parser, lines: seq<string>)
    requires GoodNames(p) && forall l :: l in lines ==> '\n' !in l
    ensures GoodNames(TakeLines(p, lines))
    decreases |lines|
  {
    if lines != [] {
      var n := |lines| - 1;
      TakeLinesGood(p, lines[..n]);
      assert lines[n] in lines;
      TakeLineGood(TakeLines(p, lines[..n]), lines[n]);
    }
  }

  // ---- The main result -----------------------------------------------------

  /** What survives being written and read back. */
  ghost predicate Writable(e: SseEvent) {
    GoodName(e.event) && forall l :: l in SplitLines(e.data) ==> l == "" || l[|l| - 1] != '\r'
  }

  lemma {:induction false} DropCrsAt(lines: seq<string>, i: nat)
    requires i < |lines|
    ensures DropCrs(lines)[i] == DropCr(lines[i])
  {
    if i > 0 {
      DropCrsAt(lines[1..], i - 1);
    }
  }

  lemma DropCrsIdentity(lines: seq<string>)
    ensures DropCrs(lines) == lines <==> forall l :: l in lines ==> l == "" || l[|l| - 1] != '\r'
  {
    forall i | 0 <= i < |lines|
      ensures DropCrs(lines)[i] == lines[i] <==> lines[i] == "" || lines[i][|lines[i]| - 1] != '\r'
    {
      DropCrsAt(lines, i);
    }
  }

  lemma ReceivedUnchanged(e: SseEvent)
    ensures Received(e) == e <==> forall l :: l in SplitLines(e.data) ==> l == "" || l[|l| - 1] != '\r'
  {
    SplitJoin(e.data);
    DropCrsLength(SplitLines(e.data));
    DropCrsIdentity(SplitLines(e.data));
  }

  lemma ReceivedAllUnchanged(events: seq<SseEvent>)
    requires forall e :: e in events ==> GoodName(e.event)
    ensures ReceivedAll(events) == events <==> forall e :: e in events ==> Writable(e)
  {
    forall i | 0 <= i < |events|
      ensures ReceivedAll(events)[i] == events[i] <==> Writable(events[i])
    {
      assert events[i] in events;
      ReceivedUnchanged(events[i]);
    }
  }

  lemma DecodedNamesGood(text: string)
    ensures forall e :: e in Decode(text) ==> GoodName(e.event)
  {
    MessageGood();
    SplitPieces(text, '\n');
    TakeLinesGood(START, CompleteLines(text));
  }

  /** Reading back what was written returns it exactly for writable events. */
  lemma RoundTrip(events: seq<SseEvent>)
    ensures Decode(Encode(events)) == events <==> forall e :: e in events ==> Writable(e)
  {
    DecodedNamesGood(Encode(events));
    if forall e :: e in events ==> GoodName(e.event) {
      FeedEvents([], events);
      ReceivedAllUnchanged(events);
      assert [] + ReceivedAll(events) == ReceivedAll(events);
      assert "" + Encode(events) == Encode(events);
    }
  }
}
