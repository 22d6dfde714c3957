/** WebAuthn ceremony challenges. `consume` is one statement; an attempt is
    three, and other statements may run between them. Times are numbers in the
    order of their textual form. */
module Challenges {
  import opened Prelude

  type Id = nat
  type Tid = nat
  type Time = nat

  datatype Purpose = Registration | Authentication | StepUp

  datatype Status = Pending | Consumed | Failed

  /** `subject` stands for the columns no statement ever writes again: account,
      session, client identity, challenge hash and ceremony state. */
  datatype Challenge = Challenge(
    purpose: Purpose, subject: string, createdAt: Time, expiresAt: Time,
    consumedAt: Option<Time>, attempts: nat, status: Status)

  type Table = map<Id, Challenge>

  function NewChallenge(purpose: Purpose, subject: string, now: Time, expiresAt: Time): Challenge {
    Challenge(purpose, subject, now, expiresAt, None, 0, Pending)
  }

  // ---- Statements ----------------------------------------------------------

  function Consume(t: Table, id: Id, now: Time): Table {
    if CanConsume(t, id, now) then t[id := t[id].(consumedAt := Some(now), status := Consumed)] else t
  }

  predicate CanConsume(t: Table, id: Id, now: Time) {
    id in t && t[id].status == Pending && now < t[id].expiresAt
  }

  function Increment(t: Table, id: Id): Table {
    if id in t && t[id].status == Pending then t[id := t[id].(attempts := t[id].attempts + 1)] else t
  }

  function ForceFail(t: Table, id: Id): Table {
    if id in t && t[id].status == Pending then t[id := t[id].(status := Failed)] else t
  }

  function Prune(t: Table, olderThan: Time): Table {
    map id | id in t && t[id].expiresAt >= olderThan :: t[id]
  }

  predicate Exhausted(t: Table, id: Id, max: nat) {
    id in t && t[id].status == Pending && t[id].attempts >= max
  }

  /** What `increment_challenge_attempt` does to the table with nothing in
      between. */
  function Attempted(t: Table, id: Id, max: nat): Table {
    if id in t && Increment(t, id)[id].attempts >= max then ForceFail(Increment(t, id), id) else Increment(t, id)
  }

  // ---- The table as the store updates it -----------------------------------

  class ChallengeStore {
    var table: Table

    constructor ()
      ensures table == map[]
    {
      table := map[];
    }

    method Issue(id: Id, purpose: Purpose, subject: string, now: Time, expiresAt: Time) returns (ok: bool)
      modifies this
      ensures ok <==> id !in old(table)
      ensures table == if ok then old(table)[id := NewChallenge(purpose, subject, now, expiresAt)] else old(table)
    {
      ok := id !in table;
      if ok {
        table := table[id := NewChallenge(purpose, subject, now, expiresAt)];
      }
    }

    method ConsumeIfPending(id: Id, now: Time) returns (r: Option<Challenge>)
      modifies this
      ensures table == Consume(old(table), id, now)
      ensures r.Some? <==> CanConsume(old(table), id, now)
      ensures r.Some? ==> r.value == old(table)[id].(consumedAt := Some(now), status := Consumed)
    {
      if id !in table || table[id].status != Pending || table[id].expiresAt <= now {
        return None;
      }
      table := table[id := table[id].(consumedAt := Some(now), status := Consumed)];
      r := Some(table[id]);
    }

    /** The three statements of an attempt: count, read back, fail. */
    method CountAttempt(id: Id)
      modifies this
      ensures table == Increment(old(table), id)
    {
      if id in table && table[id].status == Pending {
        table := table[id := table[id].(attempts := table[id].attempts + 1)];
      }
    }

    method ReadAttempts(id: Id, max: nat) returns (count: Option<nat>, exhausted: bool)
      ensures count == if id in table then Some(table[id].attempts) else None
      ensures exhausted <==> Exhausted(table, id, max)
    {
      if id !in table {
        return None, false;
      }
      count := Some(table[id].attempts);
      exhausted := table[id].status == Pending && table[id].attempts >= max;
    }

    method FailChallenge(id: Id)
      modifies this
      ensures table == ForceFail(old(table), id)
    {
      if id in table && table[id].status == Pending {
        table := table[id := table[id].(status := Failed)];
      }
    }

    /** A whole attempt with no other statement in between. */
    method IncrementAttempt(id: Id, max: nat) returns (r: Option<nat>)
      modifies this
      ensures r.None? <==> id !in old(table)
      ensures r.Some? ==> r.value == Increment(old(table), id)[id].attempts
      ensures table == Attempted(old(table), id, max)
    {
      CountAttempt(id);
      var count, exhausted := ReadAttempts(id, max);
      if exhausted {
        FailChallenge(id);
      }
      r := count;
    }

    method PruneExpired(olderThan: Time)
      modifies this
      ensures table == Prune(old(table), olderThan)
    {
      table := map id | id in table && table[id].expiresAt >= olderThan :: table[id];
    }
  }

  // ---- Interleavings -------------------------------------------------------

  /** An attempt after its increment, and after a read that found the cap. */
  datatype Thread = Incremented(id: Id) | Failing(id: Id)

  /** A consume call that returned the challenge with this serial number. */
  datatype Win = Win(serial: nat, at: Time)

  /** `issued` holds every challenge ever issued and `serial` says which of them
      a row is: the identifier of a pruned one may come up again. `wins` are the
      successful consume calls, in order. */
  datatype Sys = Sys(
    table: Table, threads: map<Tid, Thread>, serial: map<Id, nat>, issued: seq<Challenge>, wins: seq<Win>)

  const START := Sys(map[], map[], map[], [], [])

  datatype Action =
    | DoIssue(id: Id, purpose: Purpose, subject: string, now: Time, expiresAt: Time)
    | DoConsume(id: Id, now: Time)
    | DoIncrement(tid: Tid, id: Id)
    | DoReadCount(tid: Tid, max: nat)
    | DoForceFail(tid: Tid)
    | DoPrune(olderThan: Time)
    // the third statement's failure is ignored by the code
    | DoGiveUp(tid: Tid)

  function Step(s: Sys, a: Action): Sys {
    match a
    case DoIssue(id, purpose, subject, now, expiresAt) =>
      if id in s.table then s
      else
        var row := NewChallenge(purpose, subject, now, expiresAt);
        s.(table := s.table[id := row], serial := s.serial[id := |s.issued|], issued := s.issued + [row])
    case DoConsume(id, now) =>
      if CanConsume(s.table, id, now) && id in s.serial
      then s.(table := Consume(s.table, id, now), wins := s.wins + [Win(s.serial[id], now)])
      else s.(table := Consume(s.table, id, now))
    case DoIncrement(tid, id) =>
      if tid in s.threads then s
      else s.(table := Increment(s.table, id), threads := s.threads[tid := Incremented(id)])
    case DoReadCount(tid, max) =>
      if tid !in s.threads || !s.threads[tid].Incremented? then s
      else
        var id := s.threads[tid].id;
        if Exhausted(s.table, id, max)
        then s.(threads := s.threads[tid := Failing(id)])
        else s.(threads := s.threads - {tid})
    case DoForceFail(tid) =>
      if tid !in s.threads || !s.threads[tid].Failing? then s
      else s.(table := ForceFail(s.table, s.threads[tid].id), threads := s.threads - {tid})
    case DoPrune(olderThan) => s.(table := Prune(s.table, olderThan))
    case DoGiveUp(tid) => s.(threads := s.threads - {tid})
  }

  function Run(s: Sys, actions: seq<Action>): Sys
    decreases |actions|
  {
    if actions == [] then s else Run(Step(s, actions[0]), actions[1..])
  }

  /** Each step is one call on the store. */
  method Perform(store: ChallengeStore, threads: map<Tid, Thread>, a: Action, ghost s: Sys)
    returns (after: map<Tid, Thread>)
    requires s.table == store.table && s.threads == threads
    modifies store
    ensures store.table == Step(s, a).table && after == Step(s, a).threads
  {
    after := threads;
    match a {
      case DoIssue(id, purpose, subject, now, expiresAt) =>
        var ok := store.Issue(id, purpose, subject, now, expiresAt);
      case DoConsume(id, now) =>
        var row := store.ConsumeIfPending(id, now);
      case DoIncrement(tid, id) =>
        if tid !in threads {
          store.CountAttempt(id);
          after := threads[tid := Incremented(id)];
        }
      case DoReadCount(tid, max) =>
        if tid in threads && threads[tid].Incremented? {
          var count, exhausted := store.ReadAttempts(threads[tid].id, max);
          after := if exhausted then threads[tid := Failing(threads[tid].id)] else threads - {tid};
        }
      case DoForceFail(tid) =>
        if tid in threads && threads[tid].Failing? {
          store.FailChallenge(threads[tid].id);
          after := threads - {tid};
        }
      case DoPrune(olderThan) =>
        store.PruneExpired(olderThan);
      case DoGiveUp(tid) =>
        after := threads - {tid};
    }
  }

  // ---- What any run keeps --------------------------------------------------

  /** Consumed and failed are absorbing; purpose, subject and times never
      change. */
  ghost predicate RowEvolves(x: Challenge, y: Challenge) {
    && y.purpose == x.purpose && y.subject == x.subject
    && y.createdAt == x.createdAt && y.expiresAt == x.expiresAt
    && (x.status != Pending ==> y == x)
    && x.attempts <= y.attempts
  }

  /** Every row is one of the challenges issued, and no two rows are the same. */
  ghost predicate RowsIssued(s: Sys) {
    && (forall id :: id in s.table ==>
          id in s.serial && s.serial[id] < |s.issued| && RowEvolves(s.issued[s.serial[id]], s.table[id]))
    && (forall id, jd :: id in s.table && jd in s.table && id != jd ==> s.serial[id] != s.serial[jd])
    && (forall i :: 0 <= i < |s.issued| ==> s.issued[i].status == Pending)
  }

  ghost predicate ConsumedInTime(t: Table) {
    forall id :: id in t && t[id].status == Consumed ==>
      t[id].consumedAt.Some? && t[id].consumedAt.value < t[id].expiresAt
  }

  ghost predicate Won(s: Sys, serial: nat) {
    exists w :: w in s.wins && w.serial == serial
  }

  ghost predicate WinsOnce(s: Sys) {
    && (forall w :: w in s.wins ==> w.serial < |s.issued| && w.at < s.issued[w.serial].expiresAt)
    && (forall id :: id in s.table && id in s.serial && Won(s, s.serial[id]) ==> s.table[id].status == Consumed)
    && (forall i, j :: 0 <= i < j < |s.wins| ==> s.wins[i].serial != s.wins[j].serial)
  }

  ghost predicate Inv(s: Sys) {
    RowsIssued(s) && ConsumedInTime(s.table) && WinsOnce(s)
  }

  /** Rows of challenges issued before `t` are rows of `s`, evolved: none comes
      back. */
  ghost predicate TableEvolves(s: Sys, t: Sys) {
    && s.issued <= t.issued
    && forall id :: id in t.table && id in t.serial && t.serial[id] < |s.issued| ==>
         && id in s.table && id in s.serial && s.serial[id] == t.serial[id]
         && RowEvolves(s.table[id], t.table[id])
  }

  /** No challenge is issued, and rows evolve where they are. */
  ghost predicate InPlace(s: Sys, t: Sys) {
    && t.serial == s.serial && t.issued == s.issued
    && forall id :: id in t.table ==> id in s.table && RowEvolves(s.table[id], t.table[id])
  }

  predicate Issues(s: Sys, a: Action) {
    a.DoIssue? && a.id !in s.table
  }

  lemma StepInPlace(s: Sys, a: Action)
    requires !Issues(s, a)
    ensures InPlace(s, Step(s, a))
  {
  }

  lemma InPlaceRows(s: Sys, t: Sys)
    requires RowsIssued(s) && InPlace(s, t)
    ensures RowsIssued(t) && TableEvolves(s, t)
  {
  }

  lemma IssueEvolves(s: Sys, a: Action)
    requires RowsIssued(s) && Issues(s, a)
    ensures TableEvolves(s, Step(s, a))
  {
    assert Step(s, a).serial[a.id] == |s.issued|;
  }

  lemma IssueRows(s: Sys, a: Action)
    requires RowsIssued(s) && Issues(s, a)
    ensures RowsIssued(Step(s, a))
  {
    var t := Step(s, a);
    assert t.serial[a.id] == |s.issued|;
    forall id | id in t.table && id != a.id
      ensures id in s.table && t.table[id] == s.table[id] && t.serial[id] == s.serial[id] < |s.issued|
      ensures t.issued[t.serial[id]] == s.issued[s.serial[id]]
    {
    }
  }

  lemma StepRows(s: Sys, a: Action)
    requires RowsIssued(s)
    ensures RowsIssued(Step(s, a)) && TableEvolves(s, Step(s, a))
  {
    if Issues(s, a) {
      IssueRows(s, a);
      IssueEvolves(s, a);
    } else {
      StepInPlace(s, a);
      InPlaceRows(s, Step(s, a));
    }
  }

  lemma StepInTime(s: Sys, a: Action)
    requires ConsumedInTime(s.table)
    ensures ConsumedInTime(Step(s, a).table)
  {
  }

  /** A call that wins takes a pending row, whose serial no win has. */
  lemma WinIsNew(s: Sys, id: Id, now: Time)
    requires Inv(s) && CanConsume(s.table, id, now)
    ensures WinsOnce(Step(s, DoConsume(id, now)))
  {
    var t, win := Step(s, DoConsume(id, now)), Win(s.serial[id], now);
    assert !Won(s, win.serial);
    assert t.wins == s.wins + [win];
    forall jd | jd in t.table && Won(t, t.serial[jd])
      ensures t.table[jd].status == Consumed
    {
      if jd != id {
        assert Won(s, s.serial[jd]);
      }
    }
  }

  lemma NoWin(s: Sys, t: Sys)
    requires Inv(s) && t.wins == s.wins && RowsIssued(t) && TableEvolves(s, t)
    ensures WinsOnce(t)
  {
    forall id | id in t.table && Won(t, t.serial[id])
      ensures t.table[id].status == Consumed
    {
      assert Won(s, t.serial[id]);
    }
  }

  lemma StepWins(s: Sys, a: Action)
    requires Inv(s)
    ensures WinsOnce(Step(s, a))
  {
    if a.DoConsume? && CanConsume(s.table, a.id, a.now) {
      WinIsNew(s, a.id, a.now);
    } else {
      StepRows(s, a);
      NoWin(s, Step(s, a));
    }
  }

  lemma StepKeeps(s: Sys, a: Action)
    requires Inv(s)
    ensures Inv(Step(s, a))
  {
    StepRows(s, a);
    StepInTime(s, a);
    StepWins(s, a);
  }

  lemma EvolvesTransitive(s: Sys, t: Sys, u: Sys)
    requires TableEvolves(s, t) && TableEvolves(t, u)
    ensures TableEvolves(s, u)
  {
  }

  lemma {:induction false} RunKeeps(s: Sys, actions: seq<Action>)
    requires Inv(s)
    ensures Inv(Run(s, actions)) && TableEvolves(s, Run(s, actions))
    decreases |actions|
  {
    if actions != [] {
      var t := Step(s, actions[0]);
      StepKeeps(s, actions[0]);
      StepRows(s, actions[0]);
      RunKeeps(t, actions[1..]);
      EvolvesTransitive(s, t, Run(s, actions));
    }
  }

  /** Over every interleaving each challenge issued is won at most once, never at
      or after its expiry, and a row carries what it was issued with. */
  lemma ConsumedOnce(actions: seq<Action>)
    ensures var s := Run(START, actions);
      && (forall i, j :: 0 <= i < j < |s.wins| ==> s.wins[i].serial != s.wins[j].serial)
      && (forall w :: w in s.wins ==> w.serial < |s.issued| && w.at < s.issued[w.serial].expiresAt)
      && ConsumedInTime(s.table)
      && (forall id :: id in s.table ==>
            && id in s.serial && s.serial[id] < |s.issued|
            && var row := s.issued[s.serial[id]];
               s.table[id].purpose == row.purpose && s.table[id].subject == row.subject)
  {
    RunKeeps(START, actions);
  }

  /** Challenges issued before stay as they were once settled, and those that
      have been pruned never come back. */
  lemma SettledForGood(s: Sys, actions: seq<Action>)
    requires Inv(s)
    ensures var t := Run(s, actions);
      forall id :: id in t.table && id in t.serial && t.serial[id] < |s.issued| ==>
        && id in s.table && s.serial[id] == t.serial[id]
        && (s.table[id].status != Pending ==> t.table[id] == s.table[id])
  {
    RunKeeps(s, actions);
  }

  // ---- What a caller of issue can count on ---------------------------------

  /** The challenge with this serial number is still pending, as `id`. */
  ghost predicate StillPending(s: Sys, id: Id, serial: nat) {
    id in s.table && id in s.serial && s.serial[id] == serial && s.table[id].status == Pending
  }

  lemma RowFromIssue(first: Sys, issue: Action, between: seq<Action>)
    requires Inv(first) && Issues(first, issue)
    requires StillPending(Run(Step(first, issue), between), issue.id, |first.issued|)
    ensures var s := Run(Step(first, issue), between);
      RowEvolves(NewChallenge(issue.purpose, issue.subject, issue.now, issue.expiresAt), s.table[issue.id])
  {
    var issued := Step(first, issue);
    var s, n := Run(issued, between), |first.issued|;
    StepKeeps(first, issue);
    RunKeeps(issued, between);
    assert issued.issued[n] == NewChallenge(issue.purpose, issue.subject, issue.now, issue.expiresAt);
    assert issued.issued <= s.issued;
    assert s.issued[n] == issued.issued[n];
  }

  lemma PendingConsumed(s: Sys, id: Id, serial: nat, t: Time)
    requires StillPending(s, id, serial)
    ensures var u := Step(s, DoConsume(id, t));
      if t < s.table[id].expiresAt then u.wins == s.wins + [Win(serial, t)] else u == s
  {
    if t < s.table[id].expiresAt {
      assert CanConsume(s.table, id, t);
    } else {
      assert Consume(s.table, id, t) == s.table;
    }
  }

  /** In every run: a challenge issued with these arguments and neither settled
      nor pruned since is won by a consume call exactly before its expiry, and
      the row it returns carries the purpose and the subject asked for. */
  lemma IssuedIsConsumable(
      before: seq<Action>, id: Id, purpose: Purpose, subject: string, now: Time, expiresAt: Time,
      between: seq<Action>, t: Time)
    requires id !in Run(START, before).table
    requires var issued := Step(Run(START, before), DoIssue(id, purpose, subject, now, expiresAt));
      StillPending(Run(issued, between), id, |Run(START, before).issued|)
    ensures var issued := Step(Run(START, before), DoIssue(id, purpose, subject, now, expiresAt));
      var s := Run(issued, between);
      var u := Step(s, DoConsume(id, t));
      && (u.wins == s.wins + [Win(|Run(START, before).issued|, t)] <==> t < expiresAt)
      && (t >= expiresAt ==> u == s)
      && s.table[id].purpose == purpose && s.table[id].subject == subject
      && s.table[id].createdAt == now && s.table[id].expiresAt == expiresAt
  {
    var first, issue := Run(START, before), DoIssue(id, purpose, subject, now, expiresAt);
    var s := Run(Step(first, issue), between);
    RunKeeps(START, before);
    RowFromIssue(first, issue, between);
    PendingConsumed(s, id, |first.issued|, t);
    assert s.wins + [Win(|first.issued|, t)] != s.wins;
  }

  /** Pruning takes exactly what expired before the given time: nothing that a
      call at that time or later could still win. */
  lemma PruningIsHarmless(t: Table, olderThan: Time, id: Id, now: Time)
    ensures id in Prune(t, olderThan) <==> id in t && t[id].expiresAt >= olderThan
    ensures olderThan <= now ==> (CanConsume(Prune(t, olderThan), id, now) <==> CanConsume(t, id, now))
    ensures id in Prune(t, olderThan) ==> Prune(t, olderThan)[id] == t[id]
  {
  }

  // ---- The attempt cap -----------------------------------------------------

  /** Calls on a challenge that have incremented and not finished. */
  ghost function Inflight(s: Sys, id: Id): set<Tid> {
    set tid | tid in s.threads && s.threads[tid].id == id
  }

  /** The callers agree on a cap, and no write is lost. */
  predicate Capped(a: Action, max: nat) {
    match a
    case DoReadCount(_, m) => m == max
    case DoGiveUp(_) => false
    case _ => true
  }

  predicate CappedRun(actions: seq<Action>, max: nat) {
    forall a :: a in actions ==> Capped(a, max)
  }

  /** A pending challenge is below the cap but for the calls in flight on it. */
  ghost predicate CapInv(s: Sys, max: nat) {
    forall id :: id in s.table && s.table[id].status == Pending ==>
      s.table[id].attempts < max + |Inflight(s, id)|
  }

  lemma InflightChanges(s: Sys, t: Sys, id: Id, tid: Tid)
    ensures t.threads == s.threads - {tid} && !(tid in s.threads && s.threads[tid].id == id) ==>
      Inflight(t, id) == Inflight(s, id)
    ensures tid !in s.threads && t.threads == s.threads[tid := Incremented(id)] ==>
      |Inflight(t, id)| == |Inflight(s, id)| + 1
    ensures tid !in s.threads && (exists jd :: jd != id && t.threads == s.threads[tid := Incremented(jd)]) ==>
      Inflight(t, id) == Inflight(s, id)
    ensures tid in s.threads && t.threads == s.threads[tid := Failing(s.threads[tid].id)] ==>
      Inflight(t, id) == Inflight(s, id)
  {
    if tid !in s.threads {
      if t.threads == s.threads[tid := Incremented(id)] {
        assert Inflight(t, id) == Inflight(s, id) + {tid};
      }
    } else if t.threads == s.threads[tid := Failing(s.threads[tid].id)] {
      assert forall u :: u in Inflight(t, id) <==> u in Inflight(s, id);
    }
  }

  lemma StepCap(s: Sys, a: Action, max: nat)
    requires max > 0 && CapInv(s, max) && Capped(a, max)
    ensures CapInv(Step(s, a), max)
  {
    var t := Step(s, a);
    forall id | id in t.table && t.table[id].status == Pending
      ensures t.table[id].attempts < max + |Inflight(t, id)|
    {
      match a
      case DoIncrement(tid, jd) => InflightChanges(s, t, id, tid);
      case DoReadCount(tid, m) =>
        InflightChanges(s, t, id, tid);
      case DoForceFail(tid) => InflightChanges(s, t, id, tid);
      case _ =>
    }
  }

  lemma {:induction false} RunCap(s: Sys, actions: seq<Action>, max: nat)
    requires max > 0 && CapInv(s, max) && CappedRun(actions, max)
    ensures CapInv(Run(s, actions), max)
    decreases |actions|
  {
    if actions != [] {
      assert actions[0] in actions && forall a :: a in actions[1..] ==> a in actions;
      StepCap(s, actions[0], max);
      RunCap(Step(s, actions[0]), actions[1..], max);
    }
  }

  /** Whenever no call on it is in flight, a pending challenge has spent fewer
      attempts than the cap; while calls are in flight it may be over by fewer
      than there are. */
  lemma AttemptsStayCapped(actions: seq<Action>, max: nat)
    requires max > 0 && CappedRun(actions, max)
    ensures var s := Run(START, actions);
      forall id :: id in s.table && s.table[id].status == Pending ==>
        && s.table[id].attempts < max + |Inflight(s, id)|
        && (Inflight(s, id) == {} ==> s.table[id].attempts < max)
  {
    RunCap(START, actions, max);
  }

  // ---- How many calls overlap decides the cap ------------------------------

  ghost predicate Overlapping(s: Sys, n: nat) {
    forall id :: |Inflight(s, id)| <= n
  }

  /** Never more than `n` calls on one challenge at a time. */
  ghost predicate OverlapsAtMost(s: Sys, actions: seq<Action>, n: nat)
    decreases |actions|
  {
    Overlapping(s, n) && (actions != [] ==> OverlapsAtMost(Step(s, actions[0]), actions[1..], n))
  }

  /** Every row, settled ones included. */
  ghost predicate Below(t: Table, bound: int) {
    forall id :: id in t ==> t[id].attempts < bound
  }

  lemma StepBelow(s: Sys, a: Action, max: nat, n: nat)
    requires max > 0 && CapInv(s, max) && Below(s.table, max + n) && Overlapping(Step(s, a), n)
    ensures Below(Step(s, a).table, max + n)
  {
    var t := Step(s, a);
    forall id | id in t.table
      ensures t.table[id].attempts < max + n
    {
      if a.DoIncrement? && a.tid !in s.threads && a.id == id && s.table[id].status == Pending {
        InflightChanges(s, t, id, a.tid);
        assert |Inflight(t, id)| <= n;
      }
      if a.DoIssue? && id !in s.table {
        assert |Inflight(t, id)| <= n;
      }
    }
  }

  lemma {:induction false} RunBelow(s: Sys, actions: seq<Action>, max: nat, n: nat)
    requires max > 0 && CapInv(s, max) && Below(s.table, max + n)
    requires CappedRun(actions, max) && OverlapsAtMost(s, actions, n)
    ensures Below(Run(s, actions).table, max + n)
    decreases |actions|
  {
    if actions != [] {
      var t := Step(s, actions[0]);
      assert actions[0] in actions && forall a :: a in actions[1..] ==> a in actions;
      assert Overlapping(t, n) by {
        assert OverlapsAtMost(t, actions[1..], n);
      }
      StepCap(s, actions[0], max);
      StepBelow(s, actions[0], max, n);
      RunBelow(t, actions[1..], max, n);
    }
  }

  /** With at most `n` calls on a challenge at a time, no row of any status ever
      counts more than `n - 1` attempts past the cap. */
  lemma OverlapBoundsAttempts(actions: seq<Action>, max: nat, n: nat)
    requires max > 0 && CappedRun(actions, max) && OverlapsAtMost(START, actions, n)
    ensures Below(Run(START, actions).table, max + n)
  {
    RunBelow(START, actions, max, n);
  }

  // The bound is reached: calls come one at a time up to one below the cap,
  // then `n` of them increment before any of them reads.

  /** Challenge 0 after `k` attempts, with calls `0 .. m` past their increment. */
  function Counted(k: nat, m: nat): Sys {
    var row := NewChallenge(Authentication, "", 0, 1);
    Sys(map[0 := row.(attempts := k)], Calls(m), map[0 := 0], [row], [])
  }

  function Calls(m: nat): (r: map<Tid, Thread>)
    ensures forall tid: Tid :: tid in r <==> tid < m
    ensures forall tid :: tid in r ==> r[tid] == Incremented(0)
    ensures |r.Keys| == m
  {
    if m == 0 then map[]
    else
      var r := Calls(m - 1);
      assert r[m - 1 := Incremented(0)].Keys == r.Keys + {m - 1};
      r[m - 1 := Incremented(0)]
  }

  lemma CountedInflight(k: nat, m: nat, id: Id)
    ensures |Inflight(Counted(k, m), id)| == if id == 0 then m else 0
  {
    assert Inflight(Counted(k, m), id) == if id == 0 then Calls(m).Keys else {};
  }

  lemma StepCounted(k: nat, m: nat)
    ensures Step(Counted(k, m), DoIncrement(m, 0)) == Counted(k + 1, m + 1)
  {
    assert Step(Counted(k, m), DoIncrement(m, 0)).threads == Counted(k + 1, m + 1).threads;
  }

  lemma StepRead(k: nat, max: nat)
    requires k < max
    ensures Step(Counted(k, 1), DoReadCount(0, max)) == Counted(k, 0)
  {
    assert Step(Counted(k, 1), DoReadCount(0, max)).threads == Counted(k, 0).threads;
  }

  /** The reads use one cap. */
  predicate ReadsCap(actions: seq<Action>, max: nat) {
    forall a :: a in actions && a.DoReadCount? ==> a.max == max
  }

  /** Calls that end with a write lost, or are abandoned. */
  function Losses(actions: seq<Action>): nat {
    if actions == [] then 0 else (if actions[0].DoGiveUp? then 1 else 0) + Losses(actions[1..])
  }

  lemma {:induction false} NoLossIsCapped(actions: seq<Action>, max: nat)
    requires ReadsCap(actions, max) && Losses(actions) == 0
    ensures CappedRun(actions, max)
  {
    if actions != [] {
      assert actions[0] in actions && forall a :: a in actions[1..] ==> a in actions;
      NoLossIsCapped(actions[1..], max);
      assert forall a :: a in actions ==> a == actions[0] || a in actions[1..];
    }
  }

  /** A run against one cap with at most `n` overlapping calls and `k` losses. */
  ghost predicate Reaches(s: Sys, t: Sys, max: nat, n: nat, k: nat) {
    exists actions ::
      ReadsCap(actions, max) && Losses(actions) <= k && OverlapsAtMost(s, actions, n) && Run(s, actions) == t
  }

  lemma ReachesNext(s: Sys, a: Action, t: Sys, max: nat, n: nat, k: nat)
    requires Overlapping(s, n) && (a.DoReadCount? ==> a.max == max) && (a.DoGiveUp? ==> k > 0)
    requires Reaches(Step(s, a), t, max, n, if a.DoGiveUp? then k - 1 else k)
    ensures Reaches(s, t, max, n, k)
  {
    var left := if a.DoGiveUp? then k - 1 else k;
    var actions :| ReadsCap(actions, max) && Losses(actions) <= left
      && OverlapsAtMost(Step(s, a), actions, n) && Run(Step(s, a), actions) == t;
    var all := [a] + actions;
    assert all[1..] == actions;
    assert ReadsCap(all, max) && Losses(all) <= k && OverlapsAtMost(s, all, n) && Run(s, all) == t;
  }

  lemma CountedOverlapping(k: nat, m: nat, n: nat)
    requires m <= n
    ensures Overlapping(Counted(k, m), n)
  {
    forall id
      ensures |Inflight(Counted(k, m), id)| <= n
    {
      CountedInflight(k, m, id);
    }
  }

  /** Calls that overlap: increments only. */
  lemma {:induction false} ReachOverlapping(k: nat, m: nat, max: nat, n: nat)
    requires m <= n
    ensures Reaches(Counted(k, m), Counted(k + (n - m), n), max, n, 0)
    decreases n - m
  {
    var from, to := Counted(k, m), Counted(k + (n - m), n);
    CountedOverlapping(k, m, n);
    if m == n {
      ReachesItself(from, max, n, 0);
    } else {
      ReachOverlapping(k + 1, m + 1, max, n);
      StepCounted(k, m);
      ReachesNext(from, DoIncrement(m, 0), to, max, n, 0);
    }
  }

  /** Before them, calls one at a time. */
  lemma {:induction false} ReachFrom(k: nat, to: Sys, max: nat, n: nat, losses: nat)
    requires k < max && n > 0 && Reaches(Counted(max - 1, 0), to, max, n, losses)
    ensures Reaches(Counted(k, 0), to, max, n, losses)
    decreases max - k
  {
    if k < max - 1 {
      ReachFrom(k + 1, to, max, n, losses);
      CountedOverlapping(k, 0, n);
      CountedOverlapping(k + 1, 1, n);
      StepCounted(k, 0);
      StepRead(k + 1, max);
      ReachesNext(Counted(k + 1, 1), DoReadCount(0, max), to, max, n, losses);
      ReachesNext(Counted(k, 0), DoIncrement(0, 0), to, max, n, losses);
    }
  }

  lemma ReachFromStart(to: Sys, max: nat, n: nat, losses: nat)
    requires max > 0 && n > 0 && Reaches(Counted(max - 1, 0), to, max, n, losses)
    ensures Reaches(START, to, max, n, losses)
  {
    var issue := DoIssue(0, Authentication, "", 0, 1);
    ReachFrom(0, to, max, n, losses);
    assert Step(START, issue) == Counted(0, 0) by {
      assert START.threads == Counted(0, 0).threads;
    }
    ReachesNext(START, issue, to, max, n, losses);
  }

  /** For every `n` a run without losses from the empty table, with at most `n`
      overlapping calls, counts to `n - 1` past the cap. */
  lemma OverlapReachesBound(max: nat, n: nat)
    requires max > 0 && n > 0
    ensures Reaches(START, Counted(max - 1 + n, n), max, n, 0)
  {
    var to := Counted(max - 1 + n, n);
    ReachOverlapping(max - 1, 0, max, n);
    assert Reaches(Counted(max - 1, 0), to, max, n, 0);
    ReachFromStart(to, max, n, 0);
  }

  /** A call that has counted to the cap, read it and lost its last write. */
  function CapRead(max: nat): Sys {
    Counted(max, 1).(threads := map[0 := Failing(0)])
  }

  lemma StepsToLoss(max: nat)
    ensures Step(Counted(max, 1), DoReadCount(0, max)) == CapRead(max)
    ensures Step(CapRead(max), DoGiveUp(0)) == Counted(max, 0)
    ensures Overlapping(CapRead(max), 1)
  {
    assert Step(Counted(max, 1), DoReadCount(0, max)).threads == map[0 := Failing(0)];
    assert (map[0 := Failing(0)] - {0}) == Calls(0);
    forall id
      ensures |Inflight(CapRead(max), id)| <= 1
    {
      assert Inflight(CapRead(max), id) <= {0};
      assert Inflight(CapRead(max), id) == if id == 0 then {0} else {};
    }
  }

  lemma ReachesItself(s: Sys, max: nat, n: nat, k: nat)
    requires Overlapping(s, n)
    ensures Reaches(s, s, max, n, k)
  {
    assert ReadsCap([], max) && Losses([]) <= k && OverlapsAtMost(s, [], n) && Run(s, []) == s;
  }

  lemma ReachesAfter(s: Sys, a: Action, next: Sys, t: Sys, max: nat, n: nat, k: nat)
    requires Step(s, a) == next && Overlapping(s, n) && (a.DoReadCount? ==> a.max == max) && !a.DoGiveUp?
    requires Reaches(next, t, max, n, k)
    ensures Reaches(s, t, max, n, k)
  {
    ReachesNext(s, a, t, max, n, k);
  }

  lemma BeyondAfterLoss(max: nat, k: nat)
    requires k > 0
    ensures Reaches(CapRead(max), Counted(max + 1, 1), max, 1, k)
  {
    var to := Counted(max + 1, 1);
    CountedOverlapping(max + 1, 1, 1);
    ReachesItself(to, max, 1, k - 1);
    StepCounted(max, 0);
    CountedOverlapping(max, 0, 1);
    ReachesAfter(Counted(max, 0), DoIncrement(0, 0), to, to, max, 1, k - 1);
    StepsToLoss(max);
    ReachesNext(CapRead(max), DoGiveUp(0), to, max, 1, k);
  }

  /** Without overlap, one lost write at the cap lets the next call past it. */
  lemma LossReachesBeyond(max: nat, k: nat)
    requires max > 0 && k > 0
    ensures Reaches(START, Counted(max + 1, 1), max, 1, k)
  {
    var to := Counted(max + 1, 1);
    BeyondAfterLoss(max, k);
    StepsToLoss(max);
    CountedOverlapping(max, 1, 1);
    ReachesAfter(Counted(max, 1), DoReadCount(0, max), CapRead(max), to, max, 1, k);
    StepCounted(max - 1, 0);
    CountedOverlapping(max - 1, 0, 1);
    ReachesAfter(Counted(max - 1, 0), DoIncrement(0, 0), Counted(max, 1), to, max, 1, k);
    ReachFromStart(to, max, 1, k);
  }

  lemma CallsOverlap(s: Sys)
    ensures s.threads != map[] ==> !Overlapping(s, 0)
  {
    if s.threads != map[] {
      var tid :| tid in s.threads;
      assert tid in Inflight(s, s.threads[tid].id);
      assert |Inflight(s, s.threads[tid].id)| > 0;
    }
  }

  /** Where no call may be in flight none is made. */
  lemma {:induction false} NoCallsNoAttempts(s: Sys, actions: seq<Action>)
    requires s.threads == map[] && Below(s.table, 1) && OverlapsAtMost(s, actions, 0)
    ensures Below(Run(s, actions).table, 1)
    decreases |actions|
  {
    if actions != [] {
      var t := Step(s, actions[0]);
      assert Overlapping(t, 0) by {
        assert OverlapsAtMost(t, actions[1..], 0);
      }
      CallsOverlap(t);
      NoCallsNoAttempts(t, actions[1..]);
    }
  }

  ghost predicate CapHolds(max: nat, n: nat, k: nat) {
    forall actions :: ReadsCap(actions, max) && Losses(actions) <= k && OverlapsAtMost(START, actions, n) ==>
      Below(Run(START, actions).table, max + 1)
  }

  /** No run against one cap, with at most `n` overlapping calls on a challenge
      and `k` losses, counts past the cap: exactly when there are no calls, or
      calls do not overlap and nothing is lost. */
  lemma CapHoldsExactly(max: nat, n: nat, k: nat)
    requires max > 0
    ensures CapHolds(max, n, k) <==> n == 0 || (n == 1 && k == 0)
  {
    if n == 0 || (n == 1 && k == 0) {
      forall actions | ReadsCap(actions, max) && Losses(actions) <= k && OverlapsAtMost(START, actions, n)
        ensures Below(Run(START, actions).table, max + 1)
      {
        if n == 0 {
          NoCallsNoAttempts(START, actions);
        } else {
          NoLossIsCapped(actions, max);
          OverlapBoundsAttempts(actions, max, n);
        }
      }
    } else {
      var to := if n == 1 then Counted(max + 1, 1) else Counted(max - 1 + n, n);
      if n == 1 {
        LossReachesBeyond(max, k);
      } else {
        OverlapReachesBound(max, n);
      }
      var actions :| ReadsCap(actions, max) && Losses(actions) <= k
        && OverlapsAtMost(START, actions, n) && Run(START, actions) == to;
      assert to.table[0].attempts >= max + 1;
      assert !Below(Run(START, actions).table, max + 1);
    }
  }

  /** The failing input: two calls increment before either reads. */
  lemma CapIsPassed(s: Sys, one: Tid, two: Tid, id: Id, max: nat)
    requires one !in s.threads && two !in s.threads && one != two && max > 0
    requires id in s.table && s.table[id].status == Pending && s.table[id].attempts == max - 1
    ensures var t := Step(Step(s, DoIncrement(one, id)), DoIncrement(two, id));
      var u := Step(Step(t, DoReadCount(one, max)), DoForceFail(one));
      && t.table[id].status == Pending && t.table[id].attempts == max + 1
      && u.table[id].status == Failed && u.table[id].attempts == max + 1
  {
  }

  /** A lost third statement leaves the challenge pending at the cap, so that
      without overlap the next call counts past it. */
  lemma LostFailureUncaps(s: Sys, tid: Tid, id: Id, max: nat)
    requires tid !in s.threads && max > 0
    requires id in s.table && s.table[id].status == Pending && s.table[id].attempts + 1 >= max
    ensures var t := Step(Step(Step(s, DoIncrement(tid, id)), DoReadCount(tid, max)), DoGiveUp(tid));
      && t.threads == s.threads
      && t.table == s.table[id := s.table[id].(attempts := s.table[id].attempts + 1)]
  {
    var t := Step(Step(s, DoIncrement(tid, id)), DoReadCount(tid, max));
    assert t.threads - {tid} == s.threads;
  }

  // ---- A call is its statements --------------------------------------------

  /** The three statements of an attempt in a row do what the method does. */
  lemma AttemptIsThreeStatements(s: Sys, tid: Tid, id: Id, max: nat)
    requires tid !in s.threads
    ensures var t := Step(Step(Step(s, DoIncrement(tid, id)), DoReadCount(tid, max)), DoForceFail(tid));
      t == s.(table := Attempted(s.table, id, max))
  {
    var t := Step(Step(Step(s, DoIncrement(tid, id)), DoReadCount(tid, max)), DoForceFail(tid));
    assert t.threads == s.threads;
  }
}
