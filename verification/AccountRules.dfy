/** What an administrator may read off the tables after any run: which rows can
    stand beside each other, and how a status gets from one value to another. */
module AccountRules {
  import opened Prelude
  import opened HumanStore
  import opened LastAdmin
  import opened StatusRoutes
  import LastAdminGaps

  // ---- Memberships ---------------------------------------------------------

  /** No human holds the runner role, and no role twice at a time. */
  ghost predicate MembershipsSound(db: Db) {
    && (forall m :: m in db.memberships ==> db.memberships[m].role != Runner)
    && forall m, n :: m in db.memberships && n in db.memberships && m != n ==>
         var x, y := db.memberships[m], db.memberships[n];
         x.account == y.account && !x.revoked && !y.revoked ==> x.role != y.role
  }

  lemma StepSound(s: Sys, a: Action)
    requires MembershipsSound(s.db)
    ensures MembershipsSound(Step(s, a).db)
  {
  }

  lemma {:induction false} RunSound(s: Sys, actions: seq<Action>)
    requires MembershipsSound(s.db)
    ensures MembershipsSound(Run(s, actions).db)
    decreases |actions|
  {
    if actions != [] {
      StepSound(s, actions[0]);
      RunSound(Step(s, actions[0]), actions[1..]);
    }
  }

  /** In every run, whatever statements come between. */
  lemma MembershipsStaySound(actions: seq<Action>)
    ensures MembershipsSound(Run(START, actions).db)
  {
    RunSound(START, actions);
  }

  // ---- Statuses ------------------------------------------------------------

  /** The changes that a status route lets through on what it reads. */
  const ROUTES := {(Disabled, Active), (Locked, Active), (RecoveryRequired, Active), (Active, RecoveryRequired)}

  /** How a status may move in one statement. A route whose client named a later
      revision than the one it was checked at writes over any status. */
  ghost predicate Moves(s: Sys, a: Action, from: Status, to: Status) {
    match a
    case DoDisable(_, _) => to == Disabled
    case DoInitiateDeletion(_, _) => from != DeletionPending && from != DeletedTombstone && to == DeletionPending
    case DoTombstone(_, _, _) => from == DeletionPending && to == DeletedTombstone
    case DoFinishRecovery(_) => from == RecoveryRequired && to == Active
    case DoChangeStatus(tid) =>
      && tid in s.threads && s.threads[tid].Changing?
      && (to == Active || to == RecoveryRequired)
      && (s.threads[tid].expected == s.threads[tid].read.revision ==> (from, to) in ROUTES)
    case _ => false
  }

  lemma RouteChecks(from: Status, to: Status)
    ensures RouteAllows(from, to) <==> (from, to) in ROUTES
  {
  }

  lemma StepMoves(s: Sys, a: Action, x: Id)
    requires Knows(s) && x in s.db.accounts
    ensures var t := Step(s, a);
      && x in t.db.accounts
      && var row, next := s.db.accounts[x], t.db.accounts[x];
         || next == row
         || (next == Account(row.realm, next.status, row.revision + 1) && Moves(s, a, row.status, next.status))
  {
    if a.DoChangeStatus? && a.tid in s.threads && s.threads[a.tid].Changing? {
      var t := s.threads[a.tid];
      assert Remembers(s.db, t);
      RouteChecks(t.read.status, t.target);
    }
    if a.DoFinishRecovery? && a.tid in s.threads && s.threads[a.tid].Recovering? {
      assert Remembers(s.db, s.threads[a.tid]);
    }
  }

  /** After any run, one more statement leaves a row alone or moves its status
      along this table, at the next revision. */
  lemma StatusMovesOnly(before: seq<Action>, a: Action, x: Id)
    requires x in Run(START, before).db.accounts
    ensures var s := Run(START, before); var t := Step(s, a);
      && x in t.db.accounts
      && var row, next := s.db.accounts[x], t.db.accounts[x];
         || next == row
         || (next == Account(row.realm, next.status, row.revision + 1) && Moves(s, a, row.status, next.status))
  {
    RunKnows(START, before);
    StepMoves(Run(START, before), a, x);
  }

  /** A status route that nothing comes between does what it is asked for exactly
      when the table of routes has it and the client's revision is current. */
  lemma RouteExactly(s: Sys, tid: Tid, x: Id, expected: nat, target: Status)
    requires tid !in s.threads
    ensures var after := Run(s, [DoReadStatus(tid, x, expected, target), DoChangeStatus(tid)]).db;
      after == if x in s.db.accounts && s.db.accounts[x].revision == expected
                  && (s.db.accounts[x].status, target) in ROUTES
               then s.db.(accounts := s.db.accounts[x := Account(s.db.accounts[x].realm, target, expected + 1)])
               else s.db
  {
    LastAdminGaps.RunTwo(s, DoReadStatus(tid, x, expected, target), DoChangeStatus(tid));
    if x in s.db.accounts {
      RouteChecks(s.db.accounts[x].status, target);
    }
  }

  /** A completed recovery reopens the account exactly when it was waiting for
      one. */
  lemma RecoveryExactly(s: Sys, tid: Tid, x: Id)
    requires tid !in s.threads
    ensures var after := Run(s, [DoReadRecovery(tid, x), DoFinishRecovery(tid)]).db;
      after == if x in s.db.accounts && s.db.accounts[x].status == RecoveryRequired
               then s.db.(accounts :=
                 s.db.accounts[x := Account(s.db.accounts[x].realm, Active, s.db.accounts[x].revision + 1)])
               else s.db
  {
    LastAdminGaps.RunTwo(s, DoReadRecovery(tid, x), DoFinishRecovery(tid));
  }

  // ---- The guarded statements ----------------------------------------------

  /** Administrators that count, besides the account's own memberships. */
  ghost predicate AnotherAdmin(db: Db, a: Id) {
    exists m :: m in db.memberships
      && var row := db.memberships[m];
         && row.role == Admin && !row.revoked && row.account != a
         && row.account in db.accounts && db.accounts[row.account].status == Active
         && a in db.accounts && row.realm == db.accounts[a].realm
  }

  ghost predicate NoAdmin(db: Db, a: Id) {
    forall m :: m in db.memberships && db.memberships[m].account == a && !db.memberships[m].revoked ==>
      db.memberships[m].role != Admin
  }

  /** Both statements on an account hit exactly at the current revision and where
      it is no administrator or not the last one; then only its own row changes. */
  lemma GuardedExactly(db: Db, a: Id, expected: nat)
    ensures
      var hit := a in db.accounts && db.accounts[a].revision == expected && (NoAdmin(db, a) || AnotherAdmin(db, a));
      && DisableProtected(db, a, expected) == (
           if hit then db.(accounts := db.accounts[a := Account(db.accounts[a].realm, Disabled, expected + 1)]) else db)
      && InitiateDeletion(db, a, expected) == (
           if hit && db.accounts[a].status != DeletionPending && db.accounts[a].status != DeletedTombstone
           then db.(accounts := db.accounts[a := Account(db.accounts[a].realm, DeletionPending, expected + 1)])
           else db)
  {
    if a in db.accounts {
      assert NoAdmin(db, a) <==> !HoldsAdmin(db, a);
      assert AnotherAdmin(db, a) <==> OtherAccountAdmin(db, db.accounts[a].realm, a);
    }
  }

  /** Besides this membership another one that counts in its realm. */
  ghost predicate AnotherMembership(db: Db, m: Id) {
    exists n :: n in db.memberships && n != m
      && var row := db.memberships[n];
         && row.role == Admin && !row.revoked
         && row.account in db.accounts && db.accounts[row.account].status == Active
         && m in db.memberships && row.realm == db.memberships[m].realm
  }

  /** Likewise for one membership. */
  lemma RevocationHitsExactly(db: Db, m: Id)
    ensures
      var hit := m in db.memberships && !db.memberships[m].revoked;
      && RevokeMembership(db, m) == (
           if hit then db.(memberships := db.memberships[m := db.memberships[m].(revoked := true)]) else db)
      && RevokeProtected(db, m) == (if hit && AnotherMembership(db, m) then RevokeMembership(db, m) else db)
  {
    if m in db.memberships {
      assert AnotherMembership(db, m) <==> OtherMembershipAdmin(db, db.memberships[m].realm, m);
    }
  }
}
