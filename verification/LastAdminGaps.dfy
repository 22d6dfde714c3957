/** Each rule of the discipline is needed: what goes wrong when one is broken. */
module LastAdminGaps {
  import opened Prelude
  import opened HumanStore
  import opened LastAdmin

  /** The status route puts an active account into recovery without the guard
      that disabling has: a realm loses its last administrator exactly where
      that guard would have refused. */
  lemma RecoveryRouteExact(s: Sys, tid: Tid, a: Id)
    requires RealmsAgree(s.db) && a in s.db.accounts && s.db.accounts[a].status == Active && tid !in s.threads
    ensures var read := Step(s, DoReadStatus(tid, a, s.db.accounts[a].revision, RecoveryRequired));
      KeepsAdmins(s.db, Step(read, DoChangeStatus(tid)).db) <==> AccountGuard(s.db, a)
  {
    var e := s.db.accounts[a].revision;
    var read := Step(s, DoReadStatus(tid, a, e, RecoveryRequired));
    assert read == Put(s, tid, Changing(a, e, RecoveryRequired, s.db.accounts[a]));
    assert Step(read, DoChangeStatus(tid)).db == SetStatus(s.db, a, RecoveryRequired);
    AccountGuardExact(s.db, a, RecoveryRequired);
  }

  /** An account granted the first administration of a realm that is not its
      own: the disable guard looks for other administrators in its own realm,
      finds one, and the granted realm is left without. */
  lemma ForeignGrantOrphans(s: Sys, a: Id, r: Id, m: Id)
    requires a in s.db.accounts && s.db.accounts[a].status == Active && s.db.accounts[a].realm != r
    requires OtherAccountAdmin(s.db, s.db.accounts[a].realm, a) && !OtherAccountAdmin(s.db, r, a)
    requires !MembershipConflict(s.db, m, a, Admin)
    ensures var granted := Step(s, DoGrant(r, a, m, Admin)).db;
      var disabled := Run(s, [DoGrant(r, a, m, Admin), DoDisable(a, s.db.accounts[a].revision)]).db;
      && EnabledAdmin(granted, m, r)
      && disabled == SetStatus(granted, a, Disabled)
      && HasAdmin(granted, r) && !HasAdmin(disabled, r) && !KeepsAdmins(granted, disabled)
  {
    var e, q := s.db.accounts[a].revision, s.db.accounts[a].realm;
    var granted := Step(s, DoGrant(r, a, m, Admin));
    var disabled := SetStatus(granted.db, a, Disabled);
    assert granted.db.memberships == s.db.memberships[m := Membership(a, r, Admin, false)];
    assert EnabledAdmin(granted.db, m, r);
    var n :| n in s.db.memberships && EnabledAdmin(s.db, n, q) && s.db.memberships[n].account != a;
    assert EnabledAdmin(granted.db, n, q);
    assert AccountGuard(granted.db, a);
    forall o | o in disabled.memberships
      ensures !EnabledAdmin(disabled, o, r)
    {
      assert EnabledAdmin(disabled, o, r) ==> EnabledAdmin(s.db, o, r);
    }
    RunTwo(s, DoGrant(r, a, m, Admin), DoDisable(a, e));
  }

  lemma RunTwo(s: Sys, a: Action, b: Action)
    ensures Run(s, [a, b]) == Step(Step(s, a), b)
  {
    assert [a, b][1..] == [b] && [b][1..] == [];
    assert Run(Step(s, a), [b]) == Run(Step(Step(s, a), b), []);
  }

  /** A client that expects a revision the row does not have yet passes the
      check on one status and changes another: a whole deletion comes between
      the two statements, and the tombstone turns active. */
  lemma FutureRevisionRevives(s: Sys, tid: Tid, del: Tid, a: Id)
    requires a in s.db.accounts && s.db.accounts[a].status == Disabled && AccountGuard(s.db, a)
    requires tid !in s.threads && del !in s.threads && tid != del
    ensures var e := s.db.accounts[a].revision;
      var gone := Run(s, [DoReadStatus(tid, a, e + 2, Active), DoInitiateDeletion(a, e), DoTombstone(del, a, e + 1)]);
      && a in gone.db.accounts && gone.db.accounts[a].status == DeletedTombstone
      && Step(gone, DoChangeStatus(tid)).db == SetStatus(gone.db, a, Active)
  {
    var e := s.db.accounts[a].revision;
    var one, two, three := DoReadStatus(tid, a, e + 2, Active), DoInitiateDeletion(a, e), DoTombstone(del, a, e + 1);
    assert [one, two, three][1..] == [two, three];
    RunTwo(Step(s, one), two, three);
    var gone := DeletionBetween(s, tid, del, a, e);
  }

  /** The state after the deletion: the row two revisions on, the check passed. */
  lemma DeletionBetween(s: Sys, tid: Tid, del: Tid, a: Id, e: nat) returns (gone: Sys)
    requires Current(s.db, a, e) && s.db.accounts[a].status == Disabled && AccountGuard(s.db, a)
    requires tid !in s.threads && del !in s.threads && tid != del
    ensures gone == Step(Step(Step(s, DoReadStatus(tid, a, e + 2, Active)), DoInitiateDeletion(a, e)),
                         DoTombstone(del, a, e + 1))
    ensures Current(gone.db, a, e + 2) && gone.db.accounts[a].status == DeletedTombstone
    ensures Step(gone, DoChangeStatus(tid)).db == SetStatus(gone.db, a, Active)
  {
    var read := Step(s, DoReadStatus(tid, a, e + 2, Active));
    assert read == Put(s, tid, Changing(a, e + 2, Active, s.db.accounts[a]));
    var pending := Step(read, DoInitiateDeletion(a, e));
    assert pending == read.(db := SetStatus(s.db, a, DeletionPending));
    gone := Step(pending, DoTombstone(del, a, e + 1));
    assert gone == Put(pending.(db := SetStatus(pending.db, a, DeletedTombstone)), del, Tombstoned(a));
    assert gone.threads[tid] == Changing(a, e + 2, Active, s.db.accounts[a]);
  }

  // ---- Disabling a tombstoned account: a run from empty tables -------------

  /** A run from empty tables reaches this state. */
  ghost predicate Reachable(s: Sys) {
    exists actions :: Run(START, actions) == s
  }

  lemma {:induction false} RunAppend(s: Sys, actions: seq<Action>, a: Action)
    ensures Run(s, actions + [a]) == Step(Run(s, actions), a)
    decreases |actions|
  {
    if actions == [] {
      assert ([] + [a])[1..] == [];
    } else {
      assert (actions + [a])[1..] == actions[1..] + [a];
      RunAppend(Step(s, actions[0]), actions[1..], a);
    }
  }

  lemma Next(s: Sys, a: Action, t: Sys)
    requires Reachable(s) && Step(s, a) == t
    ensures Reachable(t)
  {
    var actions :| Run(START, actions) == s;
    RunAppend(START, actions, a);
  }

  /** Realm 0 with administrators 1 (founder, active) and 2. */
  function Tables(status: Status, revision: nat, revoked10: bool, revoked20: bool): Db {
    Db(map[1 := Account(0, Active, 0), 2 := Account(0, status, revision)],
       map[10 := Membership(1, 0, Admin, revoked10), 20 := Membership(2, 0, Admin, revoked20)], Some(1))
  }

  const REST2 := Account(0, Disabled, 3)

  lemma TableReads(st: Status, v: nat, x: bool, y: bool)
    ensures var db := Tables(st, v, x, y);
      && (AccountGuard(db, 2) <==> y || !x)
      && (OtherMembershipAdmin(db, 0, 10) <==> !y && st == Active)
      && (HasAdmin(db, 0) <==> !x || (!y && st == Active))
  {
    var db := Tables(st, v, x, y);
    assert EnabledAdmin(db, 10, 0) <==> !x;
    assert EnabledAdmin(db, 20, 0) <==> !y && st == Active;
    assert db.memberships[20].account == 2 && db.memberships[10].account == 1;
  }

  lemma TableWrites(st: Status, v: nat, x: bool, y: bool, status: Status)
    ensures SetStatus(Tables(st, v, x, y), 2, status) == Tables(status, v + 1, x, y)
    ensures SetRevoked(Tables(st, v, x, y), 10) == Tables(st, v, true, y)
    ensures SetRevoked(Tables(st, v, x, y), 20) == Tables(st, v, x, true)
  {
  }

  lemma StepInitiate()
    ensures Step(Sys(Tables(Active, 0, false, false), map[]), DoInitiateDeletion(2, 0))
         == Sys(Tables(DeletionPending, 1, false, false), map[])
  {
    TableReads(Active, 0, false, false);
    TableWrites(Active, 0, false, false, DeletionPending);
  }

  lemma StepTombstone()
    ensures Step(Sys(Tables(DeletionPending, 1, false, false), map[]), DoTombstone(8, 2, 1))
         == Sys(Tables(DeletedTombstone, 2, false, false), map[8 := Tombstoned(2)])
  {
    TableReads(DeletionPending, 1, false, false);
    TableWrites(DeletionPending, 1, false, false, DeletedTombstone);
  }

  lemma StepList()
    ensures Step(Sys(Tables(DeletedTombstone, 2, false, false), map[8 := Tombstoned(2)]), DoListMemberships(8))
         == Sys(Tables(DeletedTombstone, 2, false, false), map[8 := Revoking(2, {20})])
  {
    var db := Tables(DeletedTombstone, 2, false, false);
    assert (set m | m in db.memberships && db.memberships[m].account == 2 && !db.memberships[m].revoked) == {20};
    var t := Step(Sys(db, map[8 := Tombstoned(2)]), DoListMemberships(8));
    assert t.threads.Keys == {8} && t.threads[8] == Revoking(2, {20});
    assert t.threads == map[8 := Revoking(2, {20})];
  }

  lemma StepDisableTombstone()
    ensures Step(Sys(Tables(DeletedTombstone, 2, false, false), map[8 := Revoking(2, {20})]), DoDisable(2, 2))
         == Sys(Tables(Disabled, 3, false, false), map[8 := Revoking(2, {20})])
  {
    TableReads(DeletedTombstone, 2, false, false);
    TableWrites(DeletedTombstone, 2, false, false, Disabled);
  }

  lemma StepReadEnable()
    ensures Step(Sys(Tables(Disabled, 3, false, false), map[8 := Revoking(2, {20})]), DoReadStatus(9, 2, 3, Active))
         == Sys(Tables(Disabled, 3, false, false), map[8 := Revoking(2, {20}), 9 := Changing(2, 3, Active, REST2)])
  {
  }

  lemma StepEnable()
    ensures Step(Sys(Tables(Disabled, 3, false, false),
                     map[8 := Revoking(2, {20}), 9 := Changing(2, 3, Active, REST2)]),
                 DoChangeStatus(9))
         == Sys(Tables(Active, 4, false, false), map[8 := Revoking(2, {20})])
  {
    TableReads(Disabled, 3, false, false);
    TableWrites(Disabled, 3, false, false, Active);
  }

  lemma StepReadFounder()
    ensures Step(Sys(Tables(Active, 4, false, false), map[8 := Revoking(2, {20})]), DoReadMembership(7, 10))
         == Sys(Tables(Active, 4, false, false), map[8 := Revoking(2, {20}), 7 := ReadAdmin(10)])
  {
  }

  lemma StepRevokeFounder()
    ensures Step(Sys(Tables(Active, 4, false, false), map[8 := Revoking(2, {20}), 7 := ReadAdmin(10)]), DoRevokeRead(7))
         == Sys(Tables(Active, 4, true, false), map[8 := Revoking(2, {20})])
  {
    TableReads(Active, 4, false, false);
    TableWrites(Active, 4, false, false, Active);
  }

  lemma StepRevokeRest()
    ensures Step(Sys(Tables(Active, 4, true, false), map[8 := Revoking(2, {20})]), DoRevokeListed(8, 20))
         == Sys(Tables(Active, 4, true, true), map[8 := Revoking(2, {})])
  {
    TableReads(Active, 4, true, false);
    TableWrites(Active, 4, true, false, Active);
    var none: set<Id> := {20} - {20};
    assert none == {};
    var t := Step(Sys(Tables(Active, 4, true, false), map[8 := Revoking(2, {20})]), DoRevokeListed(8, 20));
    assert t.threads == map[8 := Revoking(2, {})];
  }

  lemma Founded()
    ensures Reachable(Sys(Tables(Active, 0, false, false), map[]))
  {
    assert Run(START, []) == START;
    var first := Sys(Db(map[1 := Account(0, Active, 0)], map[10 := Membership(1, 0, Admin, false)], Some(1)), map[]);
    Next(START, DoBootstrap(0, 1, 10, false), first);
    Next(first, DoCreate(0, 2, 20, Admin, true, false), Sys(Tables(Active, 0, false, false), map[]));
  }

  /** Deletion of account 2 stops between its listing and its revocation;
      disable and enable bring the tombstoned account back to `active`; the
      founder's membership goes under the guard because account 2 counts; and
      the deletion, going on, revokes account 2's without a guard. Documented
      operations alone leave the bootstrapped realm without administrators. */
  lemma DisabledTombstoneOrphans()
    ensures exists actions ::
      var db := Run(START, actions).db; db == Tables(Active, 4, true, true) && !HasAdmin(db, 0)
  {
    Founded();
    StepInitiate();
    Next(Sys(Tables(Active, 0, false, false), map[]), DoInitiateDeletion(2, 0),
         Sys(Tables(DeletionPending, 1, false, false), map[]));
    StepTombstone();
    Next(Sys(Tables(DeletionPending, 1, false, false), map[]), DoTombstone(8, 2, 1),
         Sys(Tables(DeletedTombstone, 2, false, false), map[8 := Tombstoned(2)]));
    StepList();
    Next(Sys(Tables(DeletedTombstone, 2, false, false), map[8 := Tombstoned(2)]), DoListMemberships(8),
         Sys(Tables(DeletedTombstone, 2, false, false), map[8 := Revoking(2, {20})]));
    StepDisableTombstone();
    Next(Sys(Tables(DeletedTombstone, 2, false, false), map[8 := Revoking(2, {20})]), DoDisable(2, 2),
         Sys(Tables(Disabled, 3, false, false), map[8 := Revoking(2, {20})]));
    StepReadEnable();
    Next(Sys(Tables(Disabled, 3, false, false), map[8 := Revoking(2, {20})]), DoReadStatus(9, 2, 3, Active),
         Sys(Tables(Disabled, 3, false, false), map[8 := Revoking(2, {20}), 9 := Changing(2, 3, Active, REST2)]));
    StepEnable();
    Next(Sys(Tables(Disabled, 3, false, false), map[8 := Revoking(2, {20}), 9 := Changing(2, 3, Active, REST2)]),
         DoChangeStatus(9), Sys(Tables(Active, 4, false, false), map[8 := Revoking(2, {20})]));
    StepReadFounder();
    Next(Sys(Tables(Active, 4, false, false), map[8 := Revoking(2, {20})]), DoReadMembership(7, 10),
         Sys(Tables(Active, 4, false, false), map[8 := Revoking(2, {20}), 7 := ReadAdmin(10)]));
    StepRevokeFounder();
    Next(Sys(Tables(Active, 4, false, false), map[8 := Revoking(2, {20}), 7 := ReadAdmin(10)]), DoRevokeRead(7),
         Sys(Tables(Active, 4, true, false), map[8 := Revoking(2, {20})]));
    StepRevokeRest();
    Next(Sys(Tables(Active, 4, true, false), map[8 := Revoking(2, {20})]), DoRevokeListed(8, 20),
         Sys(Tables(Active, 4, true, true), map[8 := Revoking(2, {})]));
    var actions :| Run(START, actions) == Sys(Tables(Active, 4, true, true), map[8 := Revoking(2, {})]);
    TableReads(Active, 4, true, true);
    assert Run(START, actions).db == Tables(Active, 4, true, true);
  }
}
