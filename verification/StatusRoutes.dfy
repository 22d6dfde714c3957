/** The routes that change a status read the row first and write at a revision
    that the client names. What such a call finds at its write, and when a
    tombstone comes off, over every interleaving of statements. */
module StatusRoutes {
  import opened Prelude
  import opened HumanStore
  import opened LastAdmin

  // ---- What calls in flight know -------------------------------------------

  /** A row as it was read, of an account as it is now: the same, or a later
      revision. */
  ghost predicate RowSince(db: Db, a: Id, read: Account) {
    && a in db.accounts
    && read.revision <= db.accounts[a].revision
    && (read.revision == db.accounts[a].revision ==> db.accounts[a].status == read.status)
  }

  ghost predicate StatusSince(db: Db, a: Id, revision: nat, allowed: set<Status>) {
    && a in db.accounts
    && revision <= db.accounts[a].revision
    && (revision == db.accounts[a].revision ==> db.accounts[a].status in allowed)
  }

  ghost predicate Remembers(db: Db, t: Thread) {
    match t
    case Changing(a, expected, target, read) => RouteAllows(read.status, target) && RowSince(db, a, read)
    case Recovering(a, revision) => StatusSince(db, a, revision, {RecoveryRequired})
    case Seen(a, revision) =>
      StatusSince(db, a, revision, {Invited, Active, Disabled, Locked, RecoveryRequired, DeletionPending})
    case _ => true
  }

  ghost predicate Knows(s: Sys) {
    forall tid :: tid in s.threads ==> Remembers(s.db, s.threads[tid])
  }

  lemma RemembersOn(db: Db, after: Db, t: Thread)
    requires Evolves(db, after) && Remembers(db, t)
    ensures Remembers(after, t)
  {
  }

  lemma NewRemembers(s: Sys, a: Action, tid: Tid)
    requires tid in Step(s, a).threads && (tid !in s.threads || Step(s, a).threads[tid] != s.threads[tid])
    ensures Remembers(Step(s, a).db, Step(s, a).threads[tid])
  {
  }

  lemma StepKnows(s: Sys, a: Action)
    requires Knows(s)
    ensures Knows(Step(s, a))
  {
    var t := Step(s, a);
    StepEvolves(s, a);
    forall tid | tid in t.threads
      ensures Remembers(t.db, t.threads[tid])
    {
      if tid in s.threads && t.threads[tid] == s.threads[tid] {
        RemembersOn(s.db, t.db, s.threads[tid]);
      } else {
        NewRemembers(s, a, tid);
      }
    }
  }

  lemma {:induction false} RunKnows(s: Sys, actions: seq<Action>)
    requires Knows(s)
    ensures Knows(Run(s, actions))
    decreases |actions|
  {
    if actions != [] {
      StepKnows(s, actions[0]);
      RunKnows(Step(s, actions[0]), actions[1..]);
    }
  }

  // ---- Does a status change hit the status it checked? ---------------------

  /** If the call `t` of `tid` gets to write now, the row has the status that it
      was checked against. */
  ghost predicate HitsWhatItRead(s: Sys, tid: Tid, t: Thread)
    requires t.Changing?
  {
    tid in s.threads && s.threads[tid] == t && Current(s.db, t.account, t.expected) ==>
      s.db.accounts[t.account].status == t.read.status
  }

  ghost predicate MembersKnown(db: Db) {
    forall m :: m in db.memberships ==> db.memberships[m].account in db.accounts
  }

  function Disables(a: Id, revision: nat, k: nat): (r: seq<Action>)
    ensures |r| == k
    decreases k
  {
    if k == 0 then [] else [DoDisable(a, revision)] + Disables(a, revision + 1, k - 1)
  }

  /** With another administrator in the realm an account can be disabled any
      number of times, each time one revision on. */
  lemma {:induction false} RunDisables(s: Sys, a: Id, revision: nat, k: nat)
    requires Current(s.db, a, revision) && OtherAccountAdmin(s.db, s.db.accounts[a].realm, a)
    ensures var t := Run(s, Disables(a, revision, k));
      && t.threads == s.threads && Current(t.db, a, revision + k) && t.db.accounts[a].realm == s.db.accounts[a].realm
      && OtherAccountAdmin(t.db, t.db.accounts[a].realm, a)
      && t.db.accounts[a].status == if k == 0 then s.db.accounts[a].status else Disabled
    decreases k
  {
    if k > 0 {
      var t := Step(s, DoDisable(a, revision));
      var n :| n in s.db.memberships
        && EnabledAdmin(s.db, n, s.db.accounts[a].realm) && s.db.memberships[n].account != a;
      assert t.db == SetStatus(s.db, a, Disabled);
      assert EnabledAdmin(t.db, n, s.db.accounts[a].realm);
      RunDisables(t, a, revision + 1, k - 1);
      assert Disables(a, revision, k)[1..] == Disables(a, revision + 1, k - 1);
    }
  }

  lemma {:induction false} FreshId(ids: set<Id>) returns (x: Id)
    ensures forall y :: y in ids ==> y < x
  {
    if ids == {} {
      x := 0;
    } else {
      var y :| y in ids;
      var z := FreshId(ids - {y});
      x := if y < z then z else y + 1;
      assert forall w :: w in ids ==> w == y || w in ids - {y};
    }
  }

  /** The interference: another administrator joins the realm, the account is
      disabled up to one revision short, then its deletion begins. */
  lemma ReachPending(s: Sys, a: Id, expected: nat) returns (actions: seq<Action>)
    requires MembersKnown(s.db) && a in s.db.accounts && s.db.accounts[a].revision < expected
    requires s.db.accounts[a].status != DeletionPending && s.db.accounts[a].status != DeletedTombstone
    ensures var t := Run(s, actions);
      t.threads == s.threads && Current(t.db, a, expected) && t.db.accounts[a].status == DeletionPending
  {
    var row := s.db.accounts[a];
    var b := FreshId(s.db.accounts.Keys);
    var m := FreshId(s.db.memberships.Keys);
    var k: nat := expected - 1 - row.revision;
    var join, end := DoCreate(row.realm, b, m, Admin, true, false), DoInitiateDeletion(a, expected - 1);
    var joined := Step(s, join);
    assert joined.db == AddAccount(s.db, row.realm, b, Active, m, Admin);
    assert EnabledAdmin(joined.db, m, row.realm);
    RunDisables(joined, a, row.revision, k);
    var disabled := Run(joined, Disables(a, row.revision, k));
    actions := [join] + Disables(a, row.revision, k) + [end];
    RunSplits(s, [join] + Disables(a, row.revision, k), [end]);
    RunSplits(s, [join], Disables(a, row.revision, k));
    assert [join][1..] == [] && [end][1..] == [];
    assert Run(s, [join]) == joined;
    assert Run(disabled, [end]) == Step(disabled, end);
  }

  /** In every interleaving behind its reading the call hits what it read,
      exactly when the revision it expects did not lie ahead of the row. */
  lemma StatusCheckExact(s: Sys, tid: Tid, a: Id, expected: nat, target: Status)
    requires MembersKnown(s.db) && tid !in s.threads
    requires a in s.db.accounts && RouteAllows(s.db.accounts[a].status, target)
    ensures var read, row := Step(s, DoReadStatus(tid, a, expected, target)), s.db.accounts[a];
      (forall actions :: HitsWhatItRead(Run(read, actions), tid, Changing(a, expected, target, row)))
        <==> expected <= row.revision
  {
    var read, row := Step(s, DoReadStatus(tid, a, expected, target)), s.db.accounts[a];
    var call := Changing(a, expected, target, row);
    assert read == Put(s, tid, call);
    if expected <= row.revision {
      forall actions
        ensures HitsWhatItRead(Run(read, actions), tid, call)
      {
        RunEvolves(read, actions);
      }
    } else {
      var actions := ReachPending(read, a, expected);
      assert !HitsWhatItRead(Run(read, actions), tid, call);
    }
  }

  // ---- When a tombstone comes off ------------------------------------------

  predicate IsTombstone(db: Db, x: Id) {
    x in db.accounts && db.accounts[x].status == DeletedTombstone
  }

  /** A disable at the current revision that passes the guard, or a status change
      whose expected revision has become the current one. */
  predicate TakesOff(s: Sys, a: Action, x: Id) {
    match a
    case DoDisable(account, expected) => account == x && Current(s.db, x, expected) && AccountGuard(s.db, x)
    case DoChangeStatus(tid) =>
      && tid in s.threads && s.threads[tid].Changing? && s.threads[tid].account == x
      && Current(s.db, x, s.threads[tid].expected)
    case _ => false
  }

  /** In every run, a statement takes a tombstone off exactly so; and a status
      change that does expected a revision ahead of the row it had read. */
  lemma TombstoneLostExactly(before: seq<Action>, a: Action, x: Id)
    requires IsTombstone(Run(START, before).db, x)
    ensures var s := Run(START, before);
      && (!IsTombstone(Step(s, a).db, x) <==> TakesOff(s, a, x))
      && (a.DoChangeStatus? && TakesOff(s, a, x) ==> s.threads[a.tid].read.revision < s.threads[a.tid].expected)
  {
    RunKnows(START, before);
    StepLosesExactly(Run(START, before), a, x);
  }

  lemma StepLosesExactly(s: Sys, a: Action, x: Id)
    requires Knows(s) && IsTombstone(s.db, x)
    ensures !IsTombstone(Step(s, a).db, x) <==> TakesOff(s, a, x)
    ensures a.DoChangeStatus? && TakesOff(s, a, x) ==> s.threads[a.tid].read.revision < s.threads[a.tid].expected
  {
    match a
    case DoChangeStatus(tid) =>
      if tid in s.threads && s.threads[tid].Changing? {
        assert Remembers(s.db, s.threads[tid]);
      }
    case DoFinishRecovery(tid) =>
      if tid in s.threads && s.threads[tid].Recovering? {
        assert Remembers(s.db, s.threads[tid]);
      }
    case _ =>
  }

  predicate TombstoneThroughout(s: Sys, actions: seq<Action>, x: Id)
    decreases |actions|
  {
    IsTombstone(s.db, x) && (actions != [] ==> TombstoneThroughout(Step(s, actions[0]), actions[1..], x))
  }

  predicate NeverTakenOff(s: Sys, actions: seq<Action>, x: Id)
    decreases |actions|
  {
    actions != [] ==> !TakesOff(s, actions[0], x) && NeverTakenOff(Step(s, actions[0]), actions[1..], x)
  }

  /** A tombstone stays through a whole run exactly when no statement in it is of
      that kind. */
  lemma {:induction false} TombstoneStaysExactly(s: Sys, actions: seq<Action>, x: Id)
    requires Knows(s) && IsTombstone(s.db, x)
    ensures TombstoneThroughout(s, actions, x) <==> NeverTakenOff(s, actions, x)
    decreases |actions|
  {
    if actions != [] {
      StepLosesExactly(s, actions[0], x);
      StepKnows(s, actions[0]);
      if IsTombstone(Step(s, actions[0]).db, x) {
        TombstoneStaysExactly(Step(s, actions[0]), actions[1..], x);
      }
    }
  }

  // ---- Rules under which tombstones are final ------------------------------

  /** No disable hits a tombstone, and no status change expects a revision that
      still lies ahead. */
  predicate Final(s: Sys, a: Action) {
    match a
    case DoDisable(account, expected) => Current(s.db, account, expected) ==> !IsTombstone(s.db, account)
    case DoReadStatus(_, account, expected, _) =>
      account in s.db.accounts ==> expected <= s.db.accounts[account].revision
    case _ => true
  }

  predicate FinalRun(s: Sys, actions: seq<Action>)
    decreases |actions|
  {
    actions != [] ==> Final(s, actions[0]) && FinalRun(Step(s, actions[0]), actions[1..])
  }

  ghost predicate NoneAhead(s: Sys) {
    forall tid :: tid in s.threads && s.threads[tid].Changing? ==>
      s.threads[tid].expected <= s.threads[tid].read.revision
  }

  lemma {:induction false} FinalNeverTakesOff(s: Sys, actions: seq<Action>, x: Id)
    requires Knows(s) && NoneAhead(s) && FinalRun(s, actions) && IsTombstone(s.db, x)
    ensures NeverTakenOff(s, actions, x) && TombstoneThroughout(s, actions, x)
    decreases |actions|
  {
    if actions != [] {
      StepLosesExactly(s, actions[0], x);
      StepKnows(s, actions[0]);
      assert NoneAhead(Step(s, actions[0]));
      FinalNeverTakesOff(Step(s, actions[0]), actions[1..], x);
    }
  }

  /** From empty tables, under these two rules, every tombstone is final. */
  lemma TombstonesStay(before: seq<Action>, after: seq<Action>, x: Id)
    requires FinalRun(START, before + after) && IsTombstone(Run(START, before).db, x)
    ensures TombstoneThroughout(Run(START, before), after, x)
  {
    FinalSplits(START, before, after);
    FinalNeverTakesOff(Run(START, before), after, x);
  }

  lemma {:induction false} FinalSplits(s: Sys, a: seq<Action>, b: seq<Action>)
    requires Knows(s) && NoneAhead(s) && FinalRun(s, a + b)
    ensures Knows(Run(s, a)) && NoneAhead(Run(s, a)) && FinalRun(Run(s, a), b)
    decreases |a|
  {
    if a == [] {
      assert a + b == b;
    } else {
      assert (a + b)[1..] == a[1..] + b;
      StepKnows(s, a[0]);
      assert NoneAhead(Step(s, a[0]));
      FinalSplits(Step(s, a[0]), a[1..], b);
    }
  }

  // ---- What a caller can keep to -------------------------------------------

  predicate HasSeen(s: Sys, account: Id, revision: nat) {
    exists tid :: tid in s.threads && s.threads[tid] == Seen(account, revision)
  }

  /** The rules in terms of what a caller has read, however long ago: it passes
      on a revision it has seen, of an account that was not tombstoned then, and
      leaves recovery to other routes. */
  predicate Careful(s: Sys, a: Action) {
    match a
    case DoGrant(realm, account, _, _) => account in s.db.accounts && s.db.accounts[account].realm == realm
    case DoDisable(account, expected) => HasSeen(s, account, expected)
    case DoReadStatus(_, account, expected, target) => target != RecoveryRequired && HasSeen(s, account, expected)
    case _ => true
  }

  predicate CarefulRun(s: Sys, actions: seq<Action>)
    decreases |actions|
  {
    actions != [] ==> Careful(s, actions[0]) && CarefulRun(Step(s, actions[0]), actions[1..])
  }

  /** What careful callers keep besides: status changes go to Active only, and a
      deletion under way still has its tombstone. */
  ghost predicate CarefulInv(s: Sys) {
    && Knows(s) && NoneAhead(s)
    && (forall tid :: tid in s.threads && s.threads[tid].Changing? ==> s.threads[tid].target == Active)
    && (forall tid :: tid in s.threads && (s.threads[tid].Tombstoned? || s.threads[tid].Revoking?) ==>
          IsTombstone(s.db, s.threads[tid].account))
  }

  /** The compare-and-set makes the old reading good enough. */
  lemma CarefulIsFinal(s: Sys, a: Action)
    requires CarefulInv(s) && Careful(s, a)
    ensures Final(s, a)
  {
    if a.DoDisable? || a.DoReadStatus? {
      var tid :| tid in s.threads && s.threads[tid] == Seen(a.account, a.expected);
      assert Remembers(s.db, s.threads[tid]);
    }
  }

  lemma CarefulIsDisciplined(s: Sys, a: Action)
    requires CarefulInv(s) && Careful(s, a)
    ensures Disciplined(s, a)
  {
    if a.DoChangeStatus? || a.DoFinishRecovery? {
      if a.tid in s.threads && (s.threads[a.tid].Changing? || s.threads[a.tid].Recovering?) {
        assert Remembers(s.db, s.threads[a.tid]);
      }
    }
  }

  lemma CarefulStep(s: Sys, a: Action)
    requires CarefulInv(s) && Careful(s, a)
    ensures CarefulInv(Step(s, a))
  {
    var t := Step(s, a);
    StepKnows(s, a);
    CarefulIsFinal(s, a);
    forall tid | tid in t.threads && (t.threads[tid].Tombstoned? || t.threads[tid].Revoking?)
      ensures IsTombstone(t.db, t.threads[tid].account)
    {
      if tid in s.threads {
        StepLosesExactly(s, a, t.threads[tid].account);
      }
    }
  }

  lemma {:induction false} CarefulRunKeepsRules(s: Sys, actions: seq<Action>)
    requires CarefulInv(s) && CarefulRun(s, actions)
    ensures DisciplinedRun(s, actions) && FinalRun(s, actions)
    decreases |actions|
  {
    if actions != [] {
      CarefulIsFinal(s, actions[0]);
      CarefulIsDisciplined(s, actions[0]);
      CarefulStep(s, actions[0]);
      CarefulRunKeepsRules(Step(s, actions[0]), actions[1..]);
    }
  }

  /** Callers that keep to what they have read, status routes included, in any
      interleaving from empty tables: the bootstrapped realm keeps an
      administrator, no realm that has one at some point is without one later,
      and tombstones are final. */
  lemma CarefulCallersKeepAdmins(before: seq<Action>, after: seq<Action>)
    requires CarefulRun(START, before + after)
    ensures var mid, end := Run(START, before), Run(START, before + after);
      && BootstrapInv(end.db)
      && KeepsAdmins(mid.db, end.db)
      && forall x :: IsTombstone(mid.db, x) ==> TombstoneThroughout(mid, after, x)
  {
    CarefulRunKeepsRules(START, before + after);
    RunSplits(START, before, after);
    RunKeepsAdmins(START, before);
    RunKeepsAdmins(Run(START, before), after);
    forall x | IsTombstone(Run(START, before).db, x)
      ensures TombstoneThroughout(Run(START, before), after, x)
    {
      TombstonesStay(before, after, x);
    }
  }
}
