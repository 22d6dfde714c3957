/** The incremental reader for server-sent events. Characters are what the
    streaming UTF-8 decoder hands over; a chunk may end anywhere. */
module SseReader {
  import opened Prelude

  datatype SseEvent = SseEvent(event: string, data: string)

  // ---- String operations of the source language ----------------------------

  /** JavaScript white space: what `trim` removes and `\s` matches. */
  predicate IsSpace(c: char) {
    var n := c as nat;
    || 9 <= n <= 13 || n == 0x20 || n == 0xA0 || n == 0x1680 || 0x2000 <= n <= 0x200A
    || n == 0x2028 || n == 0x2029 || n == 0x202F || n == 0x205F || n == 0x3000 || n == 0xFEFF
  }

  function TrimStart(s: string): string {
    if s != [] && IsSpace(s[0]) then TrimStart(s[1..]) else s
  }

  function TrimEnd(s: string): string {
    if s != [] && IsSpace(s[|s| - 1]) then TrimEnd(s[..|s| - 1]) else s
  }

  function Trim(s: string): string {
    TrimEnd(TrimStart(s))
  }

  /** `replace(/\r$/, "")` on a single line. */
  function DropCr(s: string): string {
    if s != [] && s[|s| - 1] == '\r' then s[..|s| - 1] else s
  }

  /** `replace(/^\s/, "")`. */
  function DropSpace(s: string): string {
    if s != [] && IsSpace(s[0]) then s[1..] else s
  }

  /** `join("\n")`. */
  function JoinLines(lines: seq<string>): string {
    if lines == [] then ""
    else if |lines| == 1 then lines[0]
    else lines[0] + "\n" + JoinLines(lines[1..])
  }

  // ---- The reader as a function --------------------------------------------

  /** The event under construction, and what has been yielded. */
  datatype Parser = Parser(event: string, data: seq<string>, yielded: seq<SseEvent>)

  const START := Parser("message", [], [])

  /** One line, already cut at its line feed. */
  function TakeLine(p: Parser, raw: string): Parser {
    var line := DropCr(raw);
    if line == "" then
      Parser("message", [], if p.data != [] then p.yielded + [SseEvent(p.event, JoinLines(p.data))] else p.yielded)
    else if StartsWith(line, "event:") then p.(event := Trim(line[6..]))
    else if StartsWith(line, "data:") then p.(data := p.data + [DropSpace(line[5..])])
    else p
  }

  function TakeLines(p: Parser, lines: seq<string>): Parser {
    if lines == [] then p else TakeLine(TakeLines(p, lines[..|lines| - 1]), lines[|lines| - 1])
  }

  /** The complete lines of a text, and what follows its last line feed. */
  function CompleteLines(text: string): seq<string> {
    var pieces := Split(text, '\n');
    pieces[..|pieces| - 1]
  }

  function Remainder(text: string): string {
    var pieces := Split(text, '\n');
    pieces[|pieces| - 1]
  }

  /** The events that a whole text is read as. */
  function Decode(text: string): seq<SseEvent> {
    TakeLines(START, CompleteLines(text)).yielded
  }

  /** What the reader holds between two chunks. */
  datatype State = State(buffer: string, parser: Parser)

  function Feed(s: State, chunk: string): State {
    var text := s.buffer + chunk;
    State(Remainder(text), TakeLines(s.parser, CompleteLines(text)))
  }

  function FeedAll(s: State, chunks: seq<string>): State
    decreases |chunks|
  {
    if chunks == [] then s else FeedAll(Feed(s, chunks[0]), chunks[1..])
  }

  function Concat(chunks: seq<string>): string {
    if chunks == [] then "" else chunks[0] + Concat(chunks[1..])
  }

  // ---- Independence from chunking ------------------------------------------

  lemma {:induction false} TakeLinesConcat(p: Parser, a: seq<string>, b: seq<string>)
    ensures TakeLines(p, a + b) == TakeLines(TakeLines(p, a), b)
    decreases |b|
  {
    if b == [] {
      assert a + b == a;
    } else {
      var n := |b| - 1;
      assert (a + b)[..|a + b| - 1] == a + b[..n] && (a + b)[|a + b| - 1] == b[n];
      TakeLinesConcat(p, a, b[..n]);
    }
  }

  lemma LineInFront(head: string, tail: string)
    requires '\n' !in head
    ensures var a := head + "\n" + tail;
      CompleteLines(a) == [head] + CompleteLines(tail) && Remainder(a) == Remainder(tail)
  {
    SplitAtFirst(head, '\n', tail);
    var pieces := Split(tail, '\n');
    assert ([head] + pieces)[..|pieces|] == [head] + pieces[..|pieces| - 1];
  }

  lemma AppendBehindLine(head: string, tail: string, b: string)
    requires '\n' !in head
    requires Split(tail + b, '\n') == CompleteLines(tail) + Split(Remainder(tail) + b, '\n')
    ensures var a := head + "\n" + tail;
      Split(a + b, '\n') == CompleteLines(a) + Split(Remainder(a) + b, '\n')
  {
    LineInFront(head, tail);
    AssocSeq(head + "\n", tail, b);
    SplitAtFirst(head, '\n', tail + b);
    AssocSeq([head], CompleteLines(tail), Split(Remainder(tail) + b, '\n'));
  }

  /** Text behind another text continues the other's last piece. */
  lemma {:induction false} SplitAppend(a: string, b: string)
    ensures Split(a + b, '\n') == CompleteLines(a) + Split(Remainder(a) + b, '\n')
    decreases |a|
  {
    var i := IndexOf(a, '\n');
    if i < |a| {
      FirstCut(a, '\n');
      SplitAppend(a[i + 1..], b);
      AppendBehindLine(a[..i], a[i + 1..], b);
    }
  }

  /** Two chunks in a row do what their concatenation does. */
  lemma FeedConcat(s: State, a: string, b: string)
    ensures Feed(Feed(s, a), b) == Feed(s, a + b)
  {
    var t := s.buffer + a;
    assert t + b == s.buffer + (a + b);
    SplitAppend(t, b);
    var u := Remainder(t) + b;
    assert CompleteLines(t + b) == CompleteLines(t) + CompleteLines(u);
    TakeLinesConcat(s.parser, CompleteLines(t), CompleteLines(u));
  }

  lemma FeedNothing(p: Parser, buffer: string)
    requires '\n' !in buffer
    ensures Feed(State(buffer, p), "") == State(buffer, p)
  {
    assert buffer + "" == buffer;
    NoIndex(buffer, '\n');
  }

  /** Only the concatenated text matters, wherever it is cut: inside a line
      ending, a field name or anywhere else. */
  lemma {:induction false} ChunkingIrrelevant(s: State, chunks: seq<string>)
    requires '\n' !in s.buffer
    ensures FeedAll(s, chunks) == Feed(s, Concat(chunks))
    decreases |chunks|
  {
    if chunks == [] {
      FeedNothing(s.parser, s.buffer);
    } else {
      SplitPieces(s.buffer + chunks[0], '\n');
      ChunkingIrrelevant(Feed(s, chunks[0]), chunks[1..]);
      FeedConcat(s, chunks[0], Concat(chunks[1..]));
    }
  }

  lemma TakeLinesSnoc(p: Parser, taken: seq<string>, raw: string)
    ensures TakeLines(p, taken + [raw]) == TakeLine(TakeLines(p, taken), raw)
  {
    assert (taken + [raw])[..|taken|] == taken;
  }

  /** The line at the front of the buffer is the next one to take. */
  lemma LineTaken(p: Parser, pieces: seq<string>, taken: seq<string>, buffer: string)
    requires pieces == taken + Split(buffer, '\n')
    ensures var i := IndexOf(buffer, '\n');
      if i == |buffer| then pieces[..|pieces| - 1] == taken && pieces[|pieces| - 1] == buffer
      else
        && pieces == taken + [buffer[..i]] + Split(buffer[i + 1..], '\n')
        && TakeLines(p, taken + [buffer[..i]]) == TakeLine(TakeLines(p, taken), buffer[..i])
  {
    var i := IndexOf(buffer, '\n');
    if i < |buffer| {
      AssocSeq(taken, [buffer[..i]], Split(buffer[i + 1..], '\n'));
      TakeLinesSnoc(p, taken, buffer[..i]);
    }
  }

  // ---- The reader as the source runs it ------------------------------------

  class Reader {
    var buffer: string
    var event: string
    var data: seq<string>
    var yielded: seq<SseEvent>

    function Contents(): Parser
      reads this
    {
      Parser(event, data, yielded)
    }

    constructor ()
      ensures Contents() == START && buffer == ""
    {
      buffer, event, data, yielded := "", "message", [], [];
    }

    /** The branches on one complete line. */
    method Take(raw: string)
      modifies this
      ensures Contents() == TakeLine(old(Contents()), raw) && buffer == old(buffer)
    {
      var line := DropCr(raw);
      if line == "" {
        if |data| > 0 {
          yielded := yielded + [SseEvent(event, JoinLines(data))];
        }
        event := "message";
        data := [];
      } else if StartsWith(line, "event:") {
        event := Trim(line[6..]);
      } else if StartsWith(line, "data:") {
        data := data + [DropSpace(line[5..])];
      }
    }

    /** One turn of the outer loop: append the chunk, take the complete lines. */
    method Read(chunk: string)
      modifies this
      ensures State(buffer, Contents()) == Feed(State(old(buffer), old(Contents())), chunk)
    {
      buffer := buffer + chunk;
      ghost var pieces := Split(buffer, '\n');
      ghost var taken: seq<string> := [];
      var idx := IndexOf(buffer, '\n');
      while idx < |buffer|
        invariant idx == IndexOf(buffer, '\n')
        invariant pieces == taken + Split(buffer, '\n')
        invariant Contents() == TakeLines(old(Contents()), taken)
        decreases |buffer|
      {
        var raw := buffer[..idx];
        LineTaken(old(Contents()), pieces, taken, buffer);
        buffer := buffer[idx + 1..];
        Take(raw);
        idx := IndexOf(buffer, '\n');
        taken := taken + [raw];
      }
      LineTaken(old(Contents()), pieces, taken, buffer);
    }
  }

  /** The whole generator: what it yields for a stream cut into `chunks`. */
  method StreamSse(chunks: seq<string>) returns (yielded: seq<SseEvent>)
    ensures yielded == Decode(Concat(chunks))
  {
    var reader := new Reader();
    ghost var first := State("", START);
    for i := 0 to |chunks|
      invariant FeedAll(State(reader.buffer, reader.Contents()), chunks[i..]) == FeedAll(first, chunks)
    {
      reader.Read(chunks[i]);
      assert chunks[i..][1..] == chunks[i + 1..];
    }
    ChunkingIrrelevant(first, chunks);
    assert "" + Concat(chunks) == Concat(chunks);
    yielded := reader.yielded;
  }
}
