/** The polling reader for a task's output: a cursor into an append-only log of
    numbered lines, interleaved with status polls. A run is any finite script
    of iterations; network failures and aborts are part of the script. */
module PollReader {
  import opened Prelude

  datatype Line = Line(no: int, text: string)

  /** What the generator yields. */
  datatype Event = StreamLine(line: Line) | Task(status: string)

  /** What one iteration meets: the log as the hub holds it at the fetch,
      whether the fetch succeeds, the log as it stands when the status reply is
      made, that reply, and the abort signal. The two requests are separate and
      the log may grow between them. */
  datatype Poll = Poll(
    abortedBefore: bool, log: seq<Line>, fetched: bool, atReply: seq<Line>, status: Option<string>, abortedAfter: bool)

  const TERMINAL := {"done", "failed", "cancelled", "timed_out"}
  const LIMIT := 100

  /** `SELECT … WHERE seq>? ORDER BY seq ASC LIMIT ?` on a log in order. */
  function Above(log: seq<Line>, cursor: int): seq<Line> {
    if log == [] then []
    else (if log[0].no > cursor then [log[0]] else []) + Above(log[1..], cursor)
  }

  function Page(log: seq<Line>, cursor: int): seq<Line> {
    var all := Above(log, cursor);
    if |all| <= LIMIT then all else all[..LIMIT]
  }

  datatype State = State(cursor: int, lastStatus: string, emitted: seq<Event>, stopped: bool)

  const INITIAL := State(0, "", [], false)

  function TakeLines(s: State, lines: seq<Line>): State
    decreases |lines|
  {
    if lines == [] then s else TakeLines(TakeOne(s, lines[0]), lines[1..])
  }

  function TakeOne(s: State, ln: Line): State {
    s.(cursor := if ln.no > s.cursor then ln.no else s.cursor, emitted := s.emitted + [StreamLine(ln)])
  }

  function TakeStatus(s: State, status: Option<string>): State {
    match status
    case None => s.(stopped := true)
    case Some(status) =>
      if status == s.lastStatus then s
      else s.(lastStatus := status, emitted := s.emitted + [Task(status)], stopped := status in TERMINAL)
  }

  function PollOnce(s: State, p: Poll): State {
    if s.stopped then s
    else if p.abortedBefore then s.(stopped := true)
    else
      var read := if p.fetched then TakeLines(s, Page(p.log, s.cursor)) else s;
      var t := TakeStatus(read, p.status);
      if p.abortedAfter then t.(stopped := true) else t
  }

  function Run(s: State, polls: seq<Poll>): State
    decreases |polls|
  {
    if polls == [] then s else Run(PollOnce(s, polls[0]), polls[1..])
  }

  // ---- The reader as the source runs it ------------------------------------

  class Reader {
    var cursor: int
    var lastStatus: string
    var emitted: seq<Event>
    var stopped: bool

    function Contents(): State
      reads this
    {
      State(cursor, lastStatus, emitted, stopped)
    }

    constructor ()
      ensures Contents() == INITIAL
    {
      cursor, lastStatus, emitted, stopped := 0, "", [], false;
    }

    method Iterate(p: Poll)
      requires !stopped
      modifies this
      ensures Contents() == PollOnce(old(Contents()), p)
    {
      if p.abortedBefore {
        stopped := true;
        return;
      }
      if p.fetched {
        ghost var start := Contents();
        var lines := Page(p.log, cursor);
        for i := 0 to |lines|
          invariant TakeLines(Contents(), lines[i..]) == TakeLines(start, lines)
          invariant !stopped
        {
          assert lines[i..][1..] == lines[i + 1..];
          if lines[i].no > cursor {
            cursor := lines[i].no;
          }
          emitted := emitted + [StreamLine(lines[i])];
        }
      }
      ghost var read := Contents();
      assert read == if p.fetched then TakeLines(old(Contents()), Page(p.log, old(cursor))) else old(Contents());
      if p.status.None? {
        stopped := true;
        return;
      }
      assert read == Contents() && !stopped;
      if p.status.value != lastStatus {
        lastStatus := p.status.value;
        emitted := emitted + [Task(lastStatus)];
        if lastStatus in TERMINAL {
          stopped := true;
          return;
        }
      }
      if p.abortedAfter {
        stopped := true;
      }
    }
  }

  /** The generator over a whole script. */
  method PollStream(polls: seq<Poll>) returns (emitted: seq<Event>)
    ensures emitted == Run(INITIAL, polls).emitted
  {
    var reader := new Reader();
    var i := 0;
    while i < |polls| && !reader.stopped
      invariant 0 <= i <= |polls|
      invariant Run(reader.Contents(), polls[i..]) == Run(INITIAL, polls)
    {
      assert polls[i..][1..] == polls[i + 1..];
      reader.Iterate(polls[i]);
      i := i + 1;
    }
    RunStopped(reader.Contents(), polls[i..]);
    emitted := reader.emitted;
  }

  lemma {:induction false} RunStopped(s: State, polls: seq<Poll>)
    requires s.stopped || polls == []
    ensures Run(s, polls) == s
    decreases |polls|
  {
    if polls != [] {
      RunStopped(s, polls[1..]);
    }
  }

  // ---- The log -------------------------------------------------------------

  /** Positive, strictly increasing sequence numbers. */
  ghost predicate Ordered(log: seq<Line>) {
    && (forall i :: 0 <= i < |log| ==> 0 < log[i].no)
    && forall i, j :: 0 <= i < j < |log| ==> log[i].no < log[j].no
  }

  /** From one request to the next the log only grows at its end. */
  ghost predicate AppendOnly(polls: seq<Poll>) {
    && (forall i :: 0 <= i < |polls| ==> Ordered(polls[i].atReply) && polls[i].log <= polls[i].atReply)
    && forall i, j :: 0 <= i < j < |polls| ==> polls[i].atReply <= polls[j].log
  }

  lemma PrefixOrdered(log: seq<Line>, longer: seq<Line>)
    requires Ordered(longer) && log <= longer
    ensures Ordered(log)
  {
  }

  function Cursor(log: seq<Line>, k: nat): int
    requires k <= |log|
  {
    if k == 0 then 0 else log[k - 1].no
  }

  lemma {:induction false} AboveCursor(log: seq<Line>, cursor: int, k: nat)
    requires k <= |log|
    requires forall i :: 0 <= i < k ==> log[i].no <= cursor
    requires forall i :: k <= i < |log| ==> cursor < log[i].no
    ensures Above(log, cursor) == log[k..]
  {
    if log != [] {
      AboveCursor(log[1..], cursor, if k == 0 then 0 else k - 1);
      assert k == 0 ==> log[k..] == [log[0]] + log[1..][0..];
      assert k > 0 ==> log[k..] == log[1..][k - 1..];
    }
  }

  function LinesOf(events: seq<Event>): seq<Line> {
    if events == [] then []
    else
      var n := |events| - 1;
      LinesOf(events[..n]) + (match events[n] case StreamLine(l) => [l] case Task(_) => [])
  }

  function StatusesOf(events: seq<Event>): seq<string> {
    if events == [] then []
    else
      var n := |events| - 1;
      StatusesOf(events[..n]) + (match events[n] case StreamLine(_) => [] case Task(s) => [s])
  }

  lemma AppendEvent(events: seq<Event>, e: Event)
    ensures LinesOf(events + [e]) == LinesOf(events) + (match e case StreamLine(l) => [l] case Task(_) => [])
    ensures StatusesOf(events + [e]) == StatusesOf(events) + (match e case StreamLine(_) => [] case Task(s) => [s])
  {
    assert (events + [e])[..|events|] == events;
  }

  // ---- What every run keeps ------------------------------------------------

  ghost predicate NoRepeat(statuses: seq<string>) {
    forall i :: 0 <= i < |statuses| - 1 ==> statuses[i] != statuses[i + 1]
  }

  /** A terminal status is the last thing emitted. */
  ghost predicate TerminalLast(events: seq<Event>) {
    forall i :: 0 <= i < |events| && events[i].Task? && events[i].status in TERMINAL ==> i == |events| - 1
  }

  ghost predicate EndsTerminal(events: seq<Event>) {
    events != [] && events[|events| - 1].Task? && events[|events| - 1].status in TERMINAL
  }

  /** The reader has emitted exactly the first lines of the log and stands
      behind them; statuses alternate and a terminal one stops it. */
  ghost predicate Inv(s: State, log: seq<Line>) {
    var k := |LinesOf(s.emitted)|;
    && k <= |log| && LinesOf(s.emitted) == log[..k] && s.cursor == Cursor(log, k)
    && NoRepeat(StatusesOf(s.emitted))
    && (StatusesOf(s.emitted) == [] ==> s.lastStatus == "")
    && (StatusesOf(s.emitted) != [] ==> s.lastStatus == StatusesOf(s.emitted)[|StatusesOf(s.emitted)| - 1])
    && TerminalLast(s.emitted)
    && (EndsTerminal(s.emitted) || s.lastStatus in TERMINAL ==> s.stopped)
  }

  lemma InvGrows(s: State, log: seq<Line>, longer: seq<Line>)
    requires Inv(s, log) && log <= longer
    ensures Inv(s, longer)
  {
    var k := |LinesOf(s.emitted)|;
    assert longer[..k] == log[..k];
  }

  lemma OneLineKeeps(s: State, log: seq<Line>)
    requires Inv(s, log) && !s.stopped && Ordered(log) && |LinesOf(s.emitted)| < |log|
    ensures var k := |LinesOf(s.emitted)|; var t := TakeOne(s, log[k]);
      Inv(t, log) && |LinesOf(t.emitted)| == k + 1
  {
    var k := |LinesOf(s.emitted)|;
    AppendEvent(s.emitted, StreamLine(log[k]));
    assert StatusesOf(s.emitted) + [] == StatusesOf(s.emitted);
    assert log[..k] + [log[k]] == log[..k + 1];
  }

  lemma {:induction false} TakeLinesKeeps(s: State, log: seq<Line>, k: nat, lines: seq<Line>)
    requires Inv(s, log) && !s.stopped && Ordered(log) && k == |LinesOf(s.emitted)|
    requires k + |lines| <= |log| && lines == log[k..k + |lines|]
    ensures var t := TakeLines(s, lines);
      && Inv(t, log) && !t.stopped && |LinesOf(t.emitted)| == k + |lines| && t.lastStatus == s.lastStatus
    decreases |lines|
  {
    if lines != [] {
      var rest, t := lines[1..], TakeOne(s, log[k]);
      assert lines[0] == log[k] && rest == log[k + 1..k + 1 + |rest|];
      OneLineKeeps(s, log);
      TakeLinesKeeps(t, log, k + 1, rest);
      assert TakeLines(s, lines) == TakeLines(t, rest);
    }
  }

  lemma TakeStatusKeeps(s: State, log: seq<Line>, status: Option<string>)
    requires Inv(s, log) && !s.stopped
    ensures Inv(TakeStatus(s, status), log)
    ensures LinesOf(TakeStatus(s, status).emitted) == LinesOf(s.emitted)
  {
    if status.Some? {
      AppendEvent(s.emitted, Task(status.value));
    }
  }

  /** How many lines a fetch delivers. */
  function Delivered(log: seq<Line>, k: nat): (n: nat)
    requires k <= |log|
    ensures k + n <= |log|
  {
    if |log| - k <= LIMIT then |log| - k else LIMIT
  }

  lemma PageIsNext(log: seq<Line>, k: nat)
    requires Ordered(log) && k <= |log|
    ensures Page(log, Cursor(log, k)) == log[k..k + Delivered(log, k)]
  {
    AboveCursor(log, Cursor(log, k), k);
  }

  lemma FetchKeeps(s: State, log: seq<Line>)
    requires Inv(s, log) && Ordered(log) && !s.stopped
    ensures var k := |LinesOf(s.emitted)|; var t := TakeLines(s, Page(log, s.cursor));
      Inv(t, log) && !t.stopped && |LinesOf(t.emitted)| == k + Delivered(log, k) && t.lastStatus == s.lastStatus
  {
    var k := |LinesOf(s.emitted)|;
    PageIsNext(log, k);
    TakeLinesKeeps(s, log, k, log[k..k + Delivered(log, k)]);
  }

  lemma PollKeeps(s: State, p: Poll)
    requires Inv(s, p.log) && Ordered(p.log)
    ensures Inv(PollOnce(s, p), p.log)
    ensures !s.stopped && !p.abortedBefore && p.fetched ==>
      var k := |LinesOf(s.emitted)|;
      |LinesOf(PollOnce(s, p).emitted)| == k + Delivered(p.log, k)
    ensures s.stopped || p.abortedBefore || !p.fetched ==> LinesOf(PollOnce(s, p).emitted) == LinesOf(s.emitted)
  {
    if !s.stopped && !p.abortedBefore {
      var read := if p.fetched then TakeLines(s, Page(p.log, s.cursor)) else s;
      if p.fetched {
        FetchKeeps(s, p.log);
      }
      TakeStatusKeeps(read, p.log, p.status);
    }
  }

  lemma {:induction false} RunKeeps(s: State, polls: seq<Poll>)
    requires polls != [] && AppendOnly(polls) && Inv(s, polls[0].log)
    ensures Inv(Run(s, polls), polls[|polls| - 1].log)
    decreases |polls|
  {
    PrefixOrdered(polls[0].log, polls[0].atReply);
    PollKeeps(s, polls[0]);
    if |polls| > 1 {
      assert polls[0].log <= polls[0].atReply <= polls[1].log;
      InvGrows(PollOnce(s, polls[0]), polls[0].log, polls[1].log);
      RunKeeps(PollOnce(s, polls[0]), polls[1..]);
    }
  }

  /** Over every script: the lines emitted so far are a prefix of the log, no
      status repeats the one before it, and nothing follows a terminal one. */
  lemma EmittedIsPrefix(polls: seq<Poll>)
    requires polls != [] && AppendOnly(polls)
    ensures var out := Run(INITIAL, polls).emitted;
      LinesOf(out) <= polls[|polls| - 1].log && NoRepeat(StatusesOf(out)) && TerminalLast(out)
  {
    var out, log := Run(INITIAL, polls).emitted, polls[|polls| - 1].log;
    InitialInv(polls[0].log);
    RunKeeps(INITIAL, polls);
    assert log[..|LinesOf(out)|] <= log;
  }

  lemma InitialInv(log: seq<Line>)
    ensures Inv(INITIAL, log)
  {
  }

  // ---- Which statuses are emitted ------------------------------------------

  /** The status replies a run gets to. */
  function Replies(s: State, polls: seq<Poll>): seq<string>
    decreases |polls|
  {
    if polls == [] || s.stopped then []
    else
      var p := polls[0];
      (if !p.abortedBefore && p.status.Some? then [p.status.value] else []) + Replies(PollOnce(s, p), polls[1..])
  }

  /** Those that differ from the one before. */
  function Changes(last: string, statuses: seq<string>): seq<string>
    decreases |statuses|
  {
    if statuses == [] then []
    else (if statuses[0] == last then [] else [statuses[0]]) + Changes(statuses[0], statuses[1..])
  }

  lemma {:induction false} TakeLinesStatuses(s: State, lines: seq<Line>)
    ensures StatusesOf(TakeLines(s, lines).emitted) == StatusesOf(s.emitted)
    ensures TakeLines(s, lines).lastStatus == s.lastStatus && TakeLines(s, lines).stopped == s.stopped
    decreases |lines|
  {
    if lines != [] {
      AppendEvent(s.emitted, StreamLine(lines[0]));
      TakeLinesStatuses(TakeOne(s, lines[0]), lines[1..]);
    }
  }

  lemma PollStatuses(s: State, p: Poll)
    requires !s.stopped && !p.abortedBefore
    ensures var t := PollOnce(s, p);
      var reply := if p.status.Some? then [p.status.value] else [];
      && StatusesOf(t.emitted) == StatusesOf(s.emitted) + Changes(s.lastStatus, reply)
      && (p.status.Some? ==> t.lastStatus == p.status.value)
      && (p.status.None? ==> t.stopped)
  {
    if p.fetched {
      TakeLinesStatuses(s, Page(p.log, s.cursor));
    }
    var read := if p.fetched then TakeLines(s, Page(p.log, s.cursor)) else s;
    if p.status.Some? {
      AppendEvent(read.emitted, Task(p.status.value));
      assert [p.status.value][1..] == [];
    }
  }

  /** Over every script: the statuses emitted are the replies the reader gets,
      each change once, in order. The first one counts as a change unless it is
      empty. */
  lemma {:induction false} EveryChangeEmitted(s: State, polls: seq<Poll>)
    ensures StatusesOf(Run(s, polls).emitted)
         == StatusesOf(s.emitted) + Changes(s.lastStatus, Replies(s, polls))
    decreases |polls|
  {
    if polls == [] || s.stopped {
      RunStopped(s, polls);
    } else {
      var p, t := polls[0], PollOnce(s, polls[0]);
      EveryChangeEmitted(t, polls[1..]);
      if !p.abortedBefore {
        PollStatuses(s, p);
        if p.status.Some? {
          var rest := Replies(t, polls[1..]);
          assert ([p.status.value] + rest)[1..] == rest && [p.status.value][1..] == [];
          AssocSeq(StatusesOf(s.emitted), Changes(s.lastStatus, [p.status.value]), Changes(p.status.value, rest));
        }
      }
    }
  }

  // ---- Which output is lost ------------------------------------------------

  /** The state a script of earlier polls leaves behind. */
  lemma ReachedInv(before: seq<Poll>, p: Poll)
    requires AppendOnly(before + [p])
    ensures Inv(Run(INITIAL, before), p.log) && Ordered(p.log)
  {
    var polls := before + [p];
    assert polls[|before|] == p;
    PrefixOrdered(p.log, p.atReply);
    if before == [] {
      InitialInv(p.log);
    } else {
      var n := |before| - 1;
      InitialInv(before[0].log);
      assert AppendOnly(before) by {
        assert forall i :: 0 <= i < |before| ==> before[i] == polls[i];
      }
      assert before[n] == polls[n] && before[n].log <= before[n].atReply <= p.log;
      RunKeeps(INITIAL, before);
      InvGrows(Run(INITIAL, before), before[n].log, p.log);
    }
  }

  lemma {:induction false} RunConcat(s: State, a: seq<Poll>, b: seq<Poll>)
    ensures Run(s, a + b) == Run(Run(s, a), b)
    decreases |a|
  {
    if a == [] {
      assert a + b == b;
    } else {
      assert (a + b)[1..] == a[1..] + b;
      RunConcat(PollOnce(s, a[0]), a[1..], b);
    }
  }

  /** A poll that reaches the status request and ends the loop there: with a
      terminal status, a failed request or an abort. */
  predicate Final(p: Poll) {
    !p.abortedBefore && (p.status.None? || p.status.value in TERMINAL || p.abortedAfter)
  }

  /** After one more poll the reader has all of the log it fetched from exactly
      when the backlog was empty, or was fetched and fits one page. */
  lemma CaughtUp(s: State, p: Poll)
    requires Inv(s, p.log) && Ordered(p.log) && !s.stopped && !p.abortedBefore
    ensures var unread := |p.log| - |LinesOf(s.emitted)|;
      var out := LinesOf(PollOnce(s, p).emitted);
      out <= p.log && (out == p.log <==> unread == 0 || (p.fetched && unread <= 100))
  {
    PollKeeps(s, p);
    var out := LinesOf(PollOnce(s, p).emitted);
    assert p.log[..|out|] <= p.log;
  }

  /** What a whole run leaves unread. Its last poll is `p`; whatever else the
      script holds, and however the log goes on to `log`, the run has emitted
      all of it exactly when nothing was unread at that poll, or its fetch
      succeeded, found at most one page, and nothing was appended behind it. */
  lemma CompleteAtStop(before: seq<Poll>, p: Poll, later: seq<Poll>, log: seq<Line>)
    requires AppendOnly(before + [p]) && p.atReply <= log
    requires !Run(INITIAL, before).stopped && Final(p)
    ensures var unread := |p.log| - |LinesOf(Run(INITIAL, before).emitted)|;
      LinesOf(Run(INITIAL, before + [p] + later).emitted) == log <==>
        log == p.log && (unread == 0 || (p.fetched && unread <= 100))
  {
    var s := Run(INITIAL, before);
    ReachedInv(before, p);
    CaughtUp(s, p);
    NothingAfter(before, p, later);
    assert AppendOnly(before + [p]) ==> p.log <= p.atReply by {
      assert (before + [p])[|before|] == p;
    }
    assert p.log <= log;
  }

  lemma NothingAfter(before: seq<Poll>, p: Poll, later: seq<Poll>)
    requires AppendOnly(before + [p]) && !Run(INITIAL, before).stopped && Final(p)
    ensures Run(INITIAL, before + [p] + later) == PollOnce(Run(INITIAL, before), p)
  {
    var s := Run(INITIAL, before);
    ReachedInv(before, p);
    FinalStops(s, p);
    RunConcat(INITIAL, before + [p], later);
    RunConcat(INITIAL, before, [p]);
    assert Run(s, [p]) == PollOnce(s, p);
    RunStopped(PollOnce(s, p), later);
  }

  lemma FinalStops(s: State, p: Poll)
    requires Inv(s, p.log) && Ordered(p.log) && !s.stopped && Final(p)
    ensures PollOnce(s, p).stopped
  {
    if p.fetched {
      FetchKeeps(s, p.log);
    }
  }

  /** A task that ends with more than a page of unread output is cut short, at
      whatever poll of the run that happens. */
  lemma LongBacklogIsLost(before: seq<Poll>, p: Poll, later: seq<Poll>)
    requires AppendOnly(before + [p]) && !Run(INITIAL, before).stopped && Final(p)
    requires |p.log| - |LinesOf(Run(INITIAL, before).emitted)| > 100
    ensures LinesOf(Run(INITIAL, before + [p] + later).emitted) != p.atReply
  {
    CompleteAtStop(before, p, later, p.atReply);
  }

  /** So is one whose last line arrives between the fetch and the reply, however
      short its output is. */
  lemma ShortBacklogIsLost(a: Line, b: Line, later: seq<Poll>)
    requires Ordered([a, b])
    ensures LinesOf(Run(INITIAL, [Poll(false, [a], true, [a, b], Some("done"), false)] + later).emitted) == [a]
  {
    var p := Poll(false, [a], true, [a, b], Some("done"), false);
    assert [p] + later == [] + [p] + later && [] + [p] == [p];
    assert [a] == [a, b][..1];
    InitialInv([a]);
    CaughtUp(INITIAL, p);
    NothingAfter([], p, later);
  }

  // ---- What one poll emits -------------------------------------------------

  function AsEvents(lines: seq<Line>): seq<Event> {
    seq(|lines|, i requires 0 <= i < |lines| => StreamLine(lines[i]))
  }

  lemma {:induction false} TakeLinesEmits(s: State, lines: seq<Line>)
    ensures TakeLines(s, lines).emitted == s.emitted + AsEvents(lines)
    decreases |lines|
  {
    if lines == [] {
      assert AsEvents(lines) == [] && s.emitted + [] == s.emitted;
    } else {
      TakeLinesEmits(TakeOne(s, lines[0]), lines[1..]);
      assert AsEvents(lines) == [StreamLine(lines[0])] + AsEvents(lines[1..]);
    }
  }

  /** Of the next hundred unread lines each once, in order, then the status if it
      is another one than before. */
  lemma PollEmits(s: State, p: Poll)
    requires Inv(s, p.log) && Ordered(p.log) && !s.stopped && !p.abortedBefore
    ensures var k := |LinesOf(s.emitted)|;
      var upTo := if !p.fetched then k else if |p.log| > k + 100 then k + 100 else |p.log|;
      PollOnce(s, p).emitted == s.emitted + AsEvents(p.log[k..upTo])
        + if p.status.Some? && p.status.value != s.lastStatus then [Task(p.status.value)] else []
  {
    var k := |LinesOf(s.emitted)|;
    if p.fetched {
      PageIsNext(p.log, k);
      TakeLinesEmits(s, Page(p.log, s.cursor));
      FetchKeeps(s, p.log);
    } else {
      assert p.log[k..k] == [] && AsEvents([]) == [];
    }
  }

  /** The loop ends at a poll exactly when the task is over, the status request
      fails or the caller gives up. */
  lemma PollStopsExactly(s: State, p: Poll)
    requires Inv(s, p.log) && Ordered(p.log) && !s.stopped
    ensures PollOnce(s, p).stopped <==>
      || p.abortedBefore || p.abortedAfter || p.status.None?
      || p.status.value == "done" || p.status.value == "failed"
      || p.status.value == "cancelled" || p.status.value == "timed_out"
  {
    if p.fetched {
      FetchKeeps(s, p.log);
    }
  }

  // ---- Why sequence numbers have to differ ---------------------------------

  lemma {:induction false} TakeLinesSeq(s: State, lines: seq<Line>, bound: int)
    requires bound <= s.cursor && forall l :: l in lines ==> l.no > bound
    ensures s.cursor <= TakeLines(s, lines).cursor
    ensures forall e :: e in TakeLines(s, lines).emitted && e !in s.emitted && e.StreamLine? ==> e.line.no > bound
    decreases |lines|
  {
    if lines != [] {
      assert lines[0] in lines && forall l :: l in lines[1..] ==> l in lines;
      TakeLinesSeq(TakeOne(s, lines[0]), lines[1..], bound);
    }
  }

  lemma {:induction false} AboveIsAbove(log: seq<Line>, cursor: int)
    ensures forall l :: l in Above(log, cursor) ==> l.no > cursor
  {
    if log != [] {
      AboveIsAbove(log[1..], cursor);
    }
  }

  /** Whatever the hub answers, a line numbered at or below the cursor that has
      not been emitted yet never will be. */
  lemma {:induction false} BelowCursorNeverEmitted(s: State, polls: seq<Poll>, line: Line)
    requires line.no <= s.cursor && StreamLine(line) !in s.emitted
    ensures StreamLine(line) !in Run(s, polls).emitted
    decreases |polls|
  {
    if polls != [] {
      var p := polls[0];
      if !s.stopped && !p.abortedBefore && p.fetched {
        AboveIsAbove(p.log, s.cursor);
        TakeLinesSeq(s, Page(p.log, s.cursor), s.cursor);
      }
      BelowCursorNeverEmitted(PollOnce(s, p), polls[1..], line);
    }
  }
}
