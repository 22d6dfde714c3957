/** The last-administrator invariant over every interleaving of statements.
    Operations that take several statements keep what they read in a thread;
    any other statement may run between two of theirs. */
module LastAdmin {
  import opened Prelude
  import opened HumanStore

  type Tid = nat

  /** What an operation remembers between two of its statements. */
  datatype Thread =
    | Tombstoned(account: Id)
    | Revoking(account: Id, left: set<Id>)
    | ReadPlain(membership: Id)
    | ReadAdmin(membership: Id)
    | Recovering(account: Id, revision: nat)
    | Changing(account: Id, expected: nat, target: Status, read: Account)
    // a client's view of an account that was not tombstoned when it looked
    | Seen(account: Id, revision: nat)

  datatype Sys = Sys(db: Db, threads: map<Tid, Thread>)

  const START := Sys(EMPTY, map[])

  /** One statement of one operation. */
  datatype Action =
    | DoBootstrap(realm: Id, account: Id, membership: Id, conflict: bool)
    | DoCreate(realm: Id, account: Id, membership: Id, role: Role, active: bool, conflict: bool)
    | DoGrant(realm: Id, account: Id, membership: Id, role: Role)
    | DoDisable(account: Id, expected: nat)
    | DoInitiateDeletion(account: Id, expected: nat)
    // complete_account_deletion: tombstone, list, then one revoke per row
    | DoTombstone(tid: Tid, account: Id, expected: nat)
    | DoListMemberships(tid: Tid)
    | DoRevokeListed(tid: Tid, membership: Id)
    // revoke_membership_protecting_last_admin: read the role, then update
    | DoReadMembership(tid: Tid, membership: Id)
    | DoRevokeRead(tid: Tid)
    // complete_recovery_with_code: read status and revision, later update
    | DoReadRecovery(tid: Tid, account: Id)
    | DoFinishRecovery(tid: Tid)
    // the status routes: read the status, then update at the client's revision
    | DoReadStatus(tid: Tid, account: Id, expected: nat, target: Status)
    | DoChangeStatus(tid: Tid)
    // a client reads an account
    | DoLook(tid: Tid, account: Id)
    | DoGiveUp(tid: Tid)

  /** What the enable and PATCH routes let a client ask for. */
  predicate RouteAllows(current: Status, target: Status) {
    || (current == Disabled && target == Active)
    || (current == Locked && target == Active)
    || (current == RecoveryRequired && target == Active)
    || (current == Active && target == RecoveryRequired)
  }

  function Put(s: Sys, tid: Tid, t: Thread): Sys {
    s.(threads := s.threads[tid := t])
  }

  function End(s: Sys, tid: Tid, db: Db): Sys {
    Sys(db, s.threads - {tid})
  }

  function Step(s: Sys, a: Action): Sys {
    match a
    case DoBootstrap(realm, account, m, conflict) => s.(db := Bootstrap(s.db, realm, account, m, conflict))
    case DoCreate(realm, account, m, role, active, conflict) =>
      s.(db := CreateAccount(s.db, realm, account, m, role, active, conflict))
    case DoGrant(realm, account, m, role) => s.(db := GrantMembership(s.db, realm, account, m, role))
    case DoDisable(account, expected) => s.(db := DisableProtected(s.db, account, expected))
    case DoInitiateDeletion(account, expected) => s.(db := InitiateDeletion(s.db, account, expected))
    case DoTombstone(tid, account, expected) =>
      if tid in s.threads || !Current(s.db, account, expected) || s.db.accounts[account].status != DeletionPending
      then s
      else Put(s.(db := Tombstone(s.db, account, expected)), tid, Tombstoned(account))
    case DoListMemberships(tid) =>
      if tid in s.threads && s.threads[tid].Tombstoned?
      then
        var account := s.threads[tid].account;
        Put(s, tid, Revoking(account, ActiveMemberships(s.db, account)))
      else s
    case DoRevokeListed(tid, m) =>
      if tid in s.threads && s.threads[tid].Revoking? && m in s.threads[tid].left
      then Put(s.(db := RevokeMembership(s.db, m)), tid, s.threads[tid].(left := s.threads[tid].left - {m}))
      else s
    case DoReadMembership(tid, m) =>
      if tid in s.threads || m !in s.db.memberships then s
      else Put(s, tid, if s.db.memberships[m].role == Admin then ReadAdmin(m) else ReadPlain(m))
    case DoRevokeRead(tid) =>
      if tid !in s.threads then s
      else (match s.threads[tid]
            case ReadPlain(m) => End(s, tid, RevokeMembership(s.db, m))
            case ReadAdmin(m) => End(s, tid, RevokeProtected(s.db, m))
            case _ => s)
    case DoReadRecovery(tid, account) =>
      if tid in s.threads || account !in s.db.accounts || s.db.accounts[account].status != RecoveryRequired then s
      else Put(s, tid, Recovering(account, s.db.accounts[account].revision))
    case DoFinishRecovery(tid) =>
      if tid in s.threads && s.threads[tid].Recovering?
      then End(s, tid, UpdateStatus(s.db, s.threads[tid].account, s.threads[tid].revision, Active))
      else s
    case DoReadStatus(tid, account, expected, target) =>
      if tid in s.threads || account !in s.db.accounts || !RouteAllows(s.db.accounts[account].status, target) then s
      else Put(s, tid, Changing(account, expected, target, s.db.accounts[account]))
    case DoChangeStatus(tid) =>
      if tid in s.threads && s.threads[tid].Changing?
      then End(s, tid, UpdateStatus(s.db, s.threads[tid].account, s.threads[tid].expected, s.threads[tid].target))
      else s
    case DoLook(tid, account) =>
      if tid in s.threads || account !in s.db.accounts || s.db.accounts[account].status == DeletedTombstone then s
      else Put(s, tid, Seen(account, s.db.accounts[account].revision))
    case DoGiveUp(tid) => End(s, tid, s.db)
  }

  /** Each step is one call on the store. */
  method Perform(store: Store, threads: map<Tid, Thread>, a: Action) returns (after: map<Tid, Thread>)
    modifies store
    ensures Sys(store.Contents(), after) == Step(Sys(old(store.Contents()), threads), a)
  {
    after := threads;
    var hit := false;
    match a {
      case DoBootstrap(realm, account, m, conflict) =>
        hit := store.BootstrapFirstAdministrator(realm, account, m, conflict);
      case DoCreate(realm, account, m, role, active, conflict) =>
        hit := store.Create(realm, account, m, role, active, conflict);
      case DoGrant(realm, account, m, role) =>
        hit := store.Grant(realm, account, m, role);
      case DoDisable(account, expected) =>
        hit := store.DisableProtectingLastAdmin(account, expected);
      case DoInitiateDeletion(account, expected) =>
        hit := store.InitiateDeletionProtectingLastAdmin(account, expected);
      case DoTombstone(tid, account, expected) =>
        if tid !in threads {
          hit := store.TombstoneAccount(account, expected);
          after := if hit then threads[tid := Tombstoned(account)] else threads;
        }
      case DoListMemberships(tid) =>
        if tid in threads && threads[tid].Tombstoned? {
          var listed := store.ListActive(threads[tid].account);
          after := threads[tid := Revoking(threads[tid].account, listed)];
        }
      case DoRevokeListed(tid, m) =>
        if tid in threads && threads[tid].Revoking? && m in threads[tid].left {
          hit := store.Revoke(m);
          after := threads[tid := threads[tid].(left := threads[tid].left - {m})];
        }
      case DoRevokeRead(tid) =>
        if tid in threads && threads[tid].ReadPlain? {
          hit := store.Revoke(threads[tid].membership);
          after := threads - {tid};
        } else if tid in threads && threads[tid].ReadAdmin? {
          hit := store.RevokeGuarded(threads[tid].membership);
          after := threads - {tid};
        }
      case DoFinishRecovery(tid) =>
        if tid in threads && threads[tid].Recovering? {
          hit := store.UpdateAccountStatus(threads[tid].account, threads[tid].revision, Active);
          after := threads - {tid};
        }
      case DoChangeStatus(tid) =>
        if tid in threads && threads[tid].Changing? {
          hit := store.UpdateAccountStatus(threads[tid].account, threads[tid].expected, threads[tid].target);
          after := threads - {tid};
        }
      case DoReadMembership(tid, m) =>
        var row := store.GetMembership(m);
        if tid !in threads && row.Some? {
          after := threads[tid := if row.value.role == Admin then ReadAdmin(m) else ReadPlain(m)];
        }
      case DoReadRecovery(tid, account) =>
        var row := store.GetAccount(account);
        if tid !in threads && row.Some? && row.value.status == RecoveryRequired {
          after := threads[tid := Recovering(account, row.value.revision)];
        }
      case DoReadStatus(tid, account, expected, target) =>
        var row := store.GetAccount(account);
        if tid !in threads && row.Some? && RouteAllows(row.value.status, target) {
          after := threads[tid := Changing(account, expected, target, row.value)];
        }
      case DoLook(tid, account) =>
        var row := store.GetAccount(account);
        if tid !in threads && row.Some? && row.value.status != DeletedTombstone {
          after := threads[tid := Seen(account, row.value.revision)];
        }
      case DoGiveUp(tid) =>
        after := threads - {tid};
    }
  }

  function Run(s: Sys, actions: seq<Action>): Sys
    decreases |actions|
  {
    if actions == [] then s else Run(Step(s, actions[0]), actions[1..])
  }

  // ---- Which statement takes a last administrator --------------------------

  /** No realm that has an enabled administrator is without one after. */
  ghost predicate KeepsAdmins(db: Db, after: Db) {
    forall r :: HasAdmin(db, r) ==> HasAdmin(after, r)
  }

  /** Every realm in which the account counts has another administrator. */
  predicate OthersEverywhere(db: Db, a: Id) {
    forall m :: m in db.memberships && db.memberships[m].account == a && EnabledAdmin(db, m, db.memberships[m].realm)
      ==> OtherAccountAdmin(db, db.memberships[m].realm, a)
  }

  /** The membership does not count, or its realm has another that does. */
  predicate Dispensable(db: Db, m: Id) {
    m in db.memberships && EnabledAdmin(db, m, db.memberships[m].realm) ==>
      OtherMembershipAdmin(db, db.memberships[m].realm, m)
  }

  predicate CurrentlyActive(db: Db, a: Id, expected: nat) {
    Current(db, a, expected) && db.accounts[a].status == Active
  }

  /** The exact condition at each statement: a write that turns an account away
      from Active leaves an administrator in every realm, and an unguarded
      revocation another membership that counts. */
  predicate Safe(s: Sys, a: Action) {
    match a
    case DoDisable(account, expected) =>
      CurrentlyActive(s.db, account, expected) && AccountGuard(s.db, account) ==> OthersEverywhere(s.db, account)
    case DoInitiateDeletion(account, expected) =>
      CurrentlyActive(s.db, account, expected) && AccountGuard(s.db, account) ==> OthersEverywhere(s.db, account)
    case DoChangeStatus(tid) =>
      tid in s.threads && s.threads[tid].Changing? ==>
        var Changing(account, expected, target, _) := s.threads[tid];
        target != Active && CurrentlyActive(s.db, account, expected) ==> OthersEverywhere(s.db, account)
    case DoRevokeListed(tid, m) =>
      tid in s.threads && s.threads[tid].Revoking? && m in s.threads[tid].left ==> Dispensable(s.db, m)
    case DoRevokeRead(tid) =>
      tid in s.threads && s.threads[tid].ReadPlain? ==> Dispensable(s.db, s.threads[tid].membership)
    case _ => true
  }

  lemma AdminsCarryOver(db: Db, after: Db)
    requires forall m, r :: m in db.memberships && EnabledAdmin(db, m, r) ==>
      m in after.memberships && EnabledAdmin(after, m, r)
    ensures KeepsAdmins(db, after)
  {
    forall r | HasAdmin(db, r)
      ensures HasAdmin(after, r)
    {
      var m :| m in db.memberships && EnabledAdmin(db, m, r);
      assert EnabledAdmin(after, m, r);
    }
  }

  lemma AddAccountKeeps(db: Db, realm: Id, a: Id, status: Status, m: Id, role: Role)
    requires a !in db.accounts && m !in db.memberships
    ensures KeepsAdmins(db, AddAccount(db, realm, a, status, m, role))
  {
    AdminsCarryOver(db, AddAccount(db, realm, a, status, m, role));
  }

  lemma BootstrapKeeps(db: Db, realm: Id, a: Id, m: Id, conflict: bool)
    ensures KeepsAdmins(db, Bootstrap(db, realm, a, m, conflict))
  {
    AdminsCarryOver(db, Bootstrap(db, realm, a, m, conflict));
  }

  lemma GrantKeeps(db: Db, realm: Id, a: Id, m: Id, role: Role)
    ensures KeepsAdmins(db, GrantMembership(db, realm, a, m, role))
  {
    AdminsCarryOver(db, GrantMembership(db, realm, a, m, role));
  }

  /** A write to an account that is not active, or to Active, takes nothing. */
  lemma StatusKeeps(db: Db, a: Id, status: Status)
    requires a in db.accounts && (db.accounts[a].status != Active || status == Active)
    ensures KeepsAdmins(db, SetStatus(db, a, status))
  {
    AdminsCarryOver(db, SetStatus(db, a, status));
  }

  /** The exact condition for turning an account away from Active. The guard asks
      it of one realm. */
  lemma DeactivationExact(db: Db, a: Id, status: Status)
    requires a in db.accounts && db.accounts[a].status == Active && status != Active
    ensures KeepsAdmins(db, SetStatus(db, a, status)) <==> OthersEverywhere(db, a)
  {
    var after := SetStatus(db, a, status);
    assert forall m, r :: m in db.memberships ==>
      (EnabledAdmin(after, m, r) <==> EnabledAdmin(db, m, r) && db.memberships[m].account != a);
    forall r
      ensures HasAdmin(after, r) <==> OtherAccountAdmin(db, r, a)
    {
    }
    if KeepsAdmins(db, after) {
      forall m | m in db.memberships && db.memberships[m].account == a && EnabledAdmin(db, m, db.memberships[m].realm)
        ensures OtherAccountAdmin(db, db.memberships[m].realm, a)
      {
        assert HasAdmin(db, db.memberships[m].realm);
      }
    }
  }

  lemma RevocationExact(db: Db, m: Id)
    requires m in db.memberships
    ensures KeepsAdmins(db, SetRevoked(db, m)) <==> Dispensable(db, m)
  {
    var after, r := SetRevoked(db, m), db.memberships[m].realm;
    assert forall n, q :: n in db.memberships ==> (EnabledAdmin(after, n, q) <==> EnabledAdmin(db, n, q) && n != m);
    if EnabledAdmin(db, m, r) {
      assert HasAdmin(db, r);
      assert HasAdmin(after, r) <==> OtherMembershipAdmin(db, r, m);
      assert forall q :: q != r ==> !EnabledAdmin(db, m, q);
    }
  }

  lemma DisableExact(s: Sys, account: Id, expected: nat)
    ensures KeepsAdmins(s.db, DisableProtected(s.db, account, expected)) <==> Safe(s, DoDisable(account, expected))
  {
    if Current(s.db, account, expected) && AccountGuard(s.db, account) {
      if s.db.accounts[account].status == Active {
        DeactivationExact(s.db, account, Disabled);
      } else {
        StatusKeeps(s.db, account, Disabled);
      }
    }
  }

  lemma InitiateExact(s: Sys, account: Id, expected: nat)
    ensures KeepsAdmins(s.db, InitiateDeletion(s.db, account, expected))
      <==> Safe(s, DoInitiateDeletion(account, expected))
  {
    if InitiateDeletion(s.db, account, expected) != s.db {
      if s.db.accounts[account].status == Active {
        DeactivationExact(s.db, account, DeletionPending);
      } else {
        StatusKeeps(s.db, account, DeletionPending);
      }
    }
  }

  lemma UpdateExact(db: Db, a: Id, expected: nat, status: Status)
    ensures KeepsAdmins(db, UpdateStatus(db, a, expected, status)) <==>
      (status != Active && CurrentlyActive(db, a, expected) ==> OthersEverywhere(db, a))
  {
    if Current(db, a, expected) {
      if db.accounts[a].status == Active && status != Active {
        DeactivationExact(db, a, status);
      } else {
        StatusKeeps(db, a, status);
      }
    }
  }

  /** In any tables, with any calls in flight, a statement keeps every realm's
      administrators exactly when it is safe. */
  lemma SafeExactly(s: Sys, a: Action)
    ensures KeepsAdmins(s.db, Step(s, a).db) <==> Safe(s, a)
  {
    var db := s.db;
    match a
    case DoBootstrap(realm, account, m, conflict) => BootstrapKeeps(db, realm, account, m, conflict);
    case DoCreate(realm, account, m, role, active, conflict) =>
      if CreateAccount(db, realm, account, m, role, active, conflict) != db {
        AddAccountKeeps(db, realm, account, if active then Active else Invited, m, role);
      }
    case DoGrant(realm, account, m, role) => GrantKeeps(db, realm, account, m, role);
    case DoDisable(account, expected) => DisableExact(s, account, expected);
    case DoInitiateDeletion(account, expected) => InitiateExact(s, account, expected);
    case DoTombstone(tid, account, expected) =>
      if Tombstone(db, account, expected) != db {
        StatusKeeps(db, account, DeletedTombstone);
      }
    case DoRevokeListed(tid, m) =>
      if tid in s.threads && s.threads[tid].Revoking? && m in s.threads[tid].left {
        RevokeExact(db, m);
      }
    case DoRevokeRead(tid) =>
      if tid in s.threads && s.threads[tid].ReadPlain? {
        RevokeExact(db, s.threads[tid].membership);
      } else if tid in s.threads && s.threads[tid].ReadAdmin? {
        GuardedRevokeKeeps(db, s.threads[tid].membership);
      }
    case DoFinishRecovery(tid) =>
      if tid in s.threads && s.threads[tid].Recovering? {
        UpdateExact(db, s.threads[tid].account, s.threads[tid].revision, Active);
      }
    case DoChangeStatus(tid) =>
      if tid in s.threads && s.threads[tid].Changing? {
        UpdateExact(db, s.threads[tid].account, s.threads[tid].expected, s.threads[tid].target);
      }
    case _ =>
  }

  lemma RevokeExact(db: Db, m: Id)
    ensures KeepsAdmins(db, RevokeMembership(db, m)) <==> Dispensable(db, m)
  {
    if m in db.memberships && !db.memberships[m].revoked {
      RevocationExact(db, m);
    }
  }

  lemma GuardedRevokeKeeps(db: Db, m: Id)
    ensures KeepsAdmins(db, RevokeProtected(db, m))
  {
    if RevokeProtected(db, m) != db {
      RevocationExact(db, m);
    }
  }

  // ---- A discipline for whole runs -----------------------------------------

  /** A deletion of the account has written its tombstone and has memberships
      left to revoke. */
  predicate UnderWay(s: Sys, account: Id) {
    exists tid :: tid in s.threads &&
      (s.threads[tid] == Tombstoned(account) ||
       (s.threads[tid].Revoking? && s.threads[tid].account == account && s.threads[tid].left != {}))
  }

  /** What has to hold at a statement: a grant names the account's own realm; no
      account is made active while its deletion is under way; and the status
      route, which has no guard, takes nobody from Active where the guard would
      refuse. Disabling and deleting are not restricted. */
  predicate Disciplined(s: Sys, a: Action) {
    match a
    case DoGrant(realm, account, _, _) => account in s.db.accounts && s.db.accounts[account].realm == realm
    case DoFinishRecovery(tid) =>
      tid in s.threads && s.threads[tid].Recovering? ==>
        var Recovering(account, revision) := s.threads[tid];
        Current(s.db, account, revision) ==> !UnderWay(s, account)
    case DoChangeStatus(tid) =>
      tid in s.threads && s.threads[tid].Changing? ==>
        var Changing(account, expected, target, _) := s.threads[tid];
        Current(s.db, account, expected) ==>
          if target == Active then !UnderWay(s, account)
          else s.db.accounts[account].status == Active ==> AccountGuard(s.db, account)
    case _ => true
  }

  predicate DisciplinedRun(s: Sys, actions: seq<Action>)
    decreases |actions|
  {
    actions != [] ==> Disciplined(s, actions[0]) && DisciplinedRun(Step(s, actions[0]), actions[1..])
  }

  // ---- The invariant -------------------------------------------------------

  /** Memberships stand in the realm of an existing account. */
  ghost predicate RealmsAgree(db: Db) {
    forall m :: m in db.memberships ==>
      && db.memberships[m].account in db.accounts
      && db.memberships[m].realm == db.accounts[db.memberships[m].account].realm
  }

  ghost predicate NotActive(db: Db, a: Id) {
    a in db.accounts && db.accounts[a].status != Active
  }

  /** An account whose deletion is under way is not active, whatever else has
      been done to it; a listed membership is its own. */
  ghost predicate ThreadInv(db: Db, t: Thread) {
    match t
    case Tombstoned(a) => NotActive(db, a)
    case Revoking(a, left) =>
      && (left != {} ==> NotActive(db, a))
      && forall m :: m in left ==> m in db.memberships && db.memberships[m].account == a
    case ReadPlain(m) => m in db.memberships && db.memberships[m].role != Admin
    case _ => true
  }

  ghost predicate BootstrapInv(db: Db) {
    db.bootstrap.Some? ==>
      db.bootstrap.value in db.accounts && HasAdmin(db, db.accounts[db.bootstrap.value].realm)
  }

  ghost predicate Inv(s: Sys) {
    && RealmsAgree(s.db)
    && BootstrapInv(s.db)
    && forall tid :: tid in s.threads ==> ThreadInv(s.db, s.threads[tid])
  }

  /** How any statement may change the tables: rows are never lost, revisions
      only grow, and a new status needs a new revision. */
  ghost predicate Evolves(db: Db, after: Db) {
    && (forall a :: a in db.accounts ==>
          && a in after.accounts
          && var x, y := db.accounts[a], after.accounts[a];
             && x.realm == y.realm && x.revision <= y.revision
             && (x.revision == y.revision ==> x.status == y.status))
    && (forall m :: m in db.memberships ==>
          && m in after.memberships
          && var x, y := db.memberships[m], after.memberships[m];
             x.account == y.account && x.realm == y.realm && x.role == y.role)
    && (db.bootstrap.Some? ==> after.bootstrap == db.bootstrap)
  }

  lemma StepEvolves(s: Sys, a: Action)
    ensures Evolves(s.db, Step(s, a).db)
  {
  }

  lemma {:induction false} RunEvolves(s: Sys, actions: seq<Action>)
    ensures Evolves(s.db, Run(s, actions).db)
    decreases |actions|
  {
    if actions != [] {
      StepEvolves(s, actions[0]);
      RunEvolves(Step(s, actions[0]), actions[1..]);
    }
  }

  /** Where memberships stand in their account's realm the guard is enough. */
  lemma GuardIsEnough(db: Db, a: Id)
    requires RealmsAgree(db) && a in db.accounts && AccountGuard(db, a)
    ensures OthersEverywhere(db, a)
  {
  }

  lemma DisciplinedIsSafe(s: Sys, a: Action)
    requires Inv(s) && Disciplined(s, a)
    ensures Safe(s, a)
  {
    match a
    case DoDisable(account, expected) =>
      if CurrentlyActive(s.db, account, expected) && AccountGuard(s.db, account) {
        GuardIsEnough(s.db, account);
      }
    case DoInitiateDeletion(account, expected) =>
      if CurrentlyActive(s.db, account, expected) && AccountGuard(s.db, account) {
        GuardIsEnough(s.db, account);
      }
    case DoChangeStatus(tid) =>
      if tid in s.threads && s.threads[tid].Changing? && s.threads[tid].target != Active
         && CurrentlyActive(s.db, s.threads[tid].account, s.threads[tid].expected) {
        GuardIsEnough(s.db, s.threads[tid].account);
      }
    case DoRevokeListed(tid, m) =>
      if tid in s.threads && s.threads[tid].Revoking? && m in s.threads[tid].left {
        assert ThreadInv(s.db, s.threads[tid]);
      }
    case DoRevokeRead(tid) =>
      if tid in s.threads && s.threads[tid].ReadPlain? {
        assert ThreadInv(s.db, s.threads[tid]);
      }
    case _ =>
  }

  lemma StepRealms(s: Sys, a: Action)
    requires RealmsAgree(s.db) && Disciplined(s, a)
    ensures RealmsAgree(Step(s, a).db)
  {
  }

  /** While a deletion is under way its account stays out of Active. */
  lemma NotActivated(s: Sys, a: Action, account: Id)
    requires Disciplined(s, a) && NotActive(s.db, account) && UnderWay(s, account)
    ensures NotActive(Step(s, a).db, account)
  {
  }

  lemma ThreadSurvives(s: Sys, a: Action, tid: Tid)
    requires Inv(s) && Disciplined(s, a) && tid in s.threads
    ensures ThreadInv(Step(s, a).db, s.threads[tid])
  {
    assert ThreadInv(s.db, s.threads[tid]);
    StepEvolves(s, a);
    match s.threads[tid]
    case Tombstoned(account) => NotActivated(s, a, account);
    case Revoking(account, left) =>
      if left != {} {
        assert UnderWay(s, account);
        NotActivated(s, a, account);
      }
    case _ =>
  }

  /** A thread that a statement creates or moves on. */
  lemma NewThread(s: Sys, a: Action, tid: Tid)
    requires Inv(s) && Disciplined(s, a)
    requires tid in Step(s, a).threads && (tid !in s.threads || Step(s, a).threads[tid] != s.threads[tid])
    ensures ThreadInv(Step(s, a).db, Step(s, a).threads[tid])
  {
    if tid in s.threads {
      assert ThreadInv(s.db, s.threads[tid]);
      ThreadSurvives(s, a, tid);
    }
  }

  lemma BootstrapKept(db: Db, after: Db)
    requires BootstrapInv(db) && Evolves(db, after) && KeepsAdmins(db, after) && after.bootstrap == db.bootstrap
    ensures BootstrapInv(after)
  {
  }

  lemma StepBootstrap(s: Sys, a: Action)
    requires BootstrapInv(s.db) && KeepsAdmins(s.db, Step(s, a).db)
    ensures BootstrapInv(Step(s, a).db)
  {
    StepEvolves(s, a);
    if a.DoBootstrap? && Step(s, a).db != s.db {
      assert EnabledAdmin(Step(s, a).db, a.membership, a.realm);
    } else {
      BootstrapKept(s.db, Step(s, a).db);
    }
  }

  /** One disciplined statement, whoever runs it, keeps the invariant. */
  lemma StepKeeps(s: Sys, a: Action)
    requires Inv(s) && Disciplined(s, a)
    ensures Inv(Step(s, a)) && KeepsAdmins(s.db, Step(s, a).db)
  {
    DisciplinedIsSafe(s, a);
    SafeExactly(s, a);
    StepRealms(s, a);
    StepBootstrap(s, a);
    var t := Step(s, a);
    forall tid | tid in t.threads
      ensures ThreadInv(t.db, t.threads[tid])
    {
      if tid in s.threads && t.threads[tid] == s.threads[tid] {
        ThreadSurvives(s, a, tid);
      } else {
        NewThread(s, a, tid);
      }
    }
  }

  // ---- The main result -----------------------------------------------------

  /** No disciplined interleaving takes the last enabled administrator from any
      realm that has one. */
  lemma {:induction false} RunKeepsAdmins(s: Sys, actions: seq<Action>)
    requires Inv(s) && DisciplinedRun(s, actions)
    ensures Inv(Run(s, actions)) && KeepsAdmins(s.db, Run(s, actions).db)
    decreases |actions|
  {
    if actions != [] {
      StepKeeps(s, actions[0]);
      RunKeepsAdmins(Step(s, actions[0]), actions[1..]);
    }
  }

  /** From empty tables: once bootstrap or genesis has closed, its realm has an
      enabled administrator at the end of every disciplined interleaving. */
  lemma LastAdministratorRemains(actions: seq<Action>)
    requires DisciplinedRun(START, actions)
    ensures BootstrapInv(Run(START, actions).db)
  {
    RunKeepsAdmins(START, actions);
  }

  /** Every statement but the readings of the status and recovery routes, with
      grants in the account's own realm. */
  predicate Protected(s: Sys, a: Action) {
    && !a.DoReadStatus? && !a.DoReadRecovery?
    && (a.DoGrant? ==> a.account in s.db.accounts && s.db.accounts[a.account].realm == a.realm)
  }

  predicate ProtectedRun(s: Sys, actions: seq<Action>)
    decreases |actions|
  {
    actions != [] ==> Protected(s, actions[0]) && ProtectedRun(Step(s, actions[0]), actions[1..])
  }

  ghost predicate NoStatusCalls(s: Sys) {
    forall tid :: tid in s.threads ==> !s.threads[tid].Recovering? && !s.threads[tid].Changing?
  }

  lemma {:induction false} ProtectedIsDisciplined(s: Sys, actions: seq<Action>)
    requires NoStatusCalls(s) && ProtectedRun(s, actions)
    ensures DisciplinedRun(s, actions)
    decreases |actions|
  {
    if actions != [] {
      assert NoStatusCalls(Step(s, actions[0]));
      ProtectedIsDisciplined(Step(s, actions[0]), actions[1..]);
    }
  }

  /** The protected operations alone, in any interleaving from empty tables and
      against any accounts, tombstoned ones included: the bootstrapped realm
      keeps an administrator, and no realm that has one at some point is without
      one later. */
  lemma ProtectedOperationsKeepAdmins(before: seq<Action>, after: seq<Action>)
    requires ProtectedRun(START, before + after)
    ensures var mid, end := Run(START, before), Run(START, before + after);
      BootstrapInv(end.db) && KeepsAdmins(mid.db, end.db)
  {
    ProtectedIsDisciplined(START, before + after);
    RunSplits(START, before, after);
    RunKeepsAdmins(START, before);
    RunKeepsAdmins(Run(START, before), after);
  }

  lemma {:induction false} RunSplits(s: Sys, a: seq<Action>, b: seq<Action>)
    ensures Run(s, a + b) == Run(Run(s, a), b)
    ensures DisciplinedRun(s, a + b) ==> DisciplinedRun(s, a) && DisciplinedRun(Run(s, a), b)
    decreases |a|
  {
    if a == [] {
      assert a + b == b;
    } else {
      assert (a + b)[1..] == a[1..] + b;
      RunSplits(Step(s, a[0]), a[1..], b);
    }
  }

  /** Bootstrap succeeds at most once, whatever else runs, disciplined or not. */
  lemma {:induction false} BootstrapOnce(s: Sys, actions: seq<Action>)
    requires s.db.bootstrap.Some?
    ensures Run(s, actions).db.bootstrap == s.db.bootstrap
    decreases |actions|
  {
    if actions != [] {
      BootstrapOnce(Step(s, actions[0]), actions[1..]);
    }
  }

  // ---- What the guards decide ----------------------------------------------

  /** For an active account in a consistent realm, the disable guard is exactly
      the condition that no realm loses its last administrator. */
  lemma AccountGuardExact(db: Db, a: Id, status: Status)
    requires RealmsAgree(db) && a in db.accounts && db.accounts[a].status == Active && status != Active
    ensures AccountGuard(db, a) <==> KeepsAdmins(db, SetStatus(db, a, status))
  {
    DeactivationExact(db, a, status);
    if HoldsAdmin(db, a) {
      var m :| m in db.memberships
        && db.memberships[m].account == a && db.memberships[m].role == Admin && !db.memberships[m].revoked;
      assert EnabledAdmin(db, m, db.accounts[a].realm);
    }
  }

  /** The revocation guard is exact on memberships that count. */
  lemma RevokeGuardExact(db: Db, m: Id)
    requires m in db.memberships && EnabledAdmin(db, m, db.memberships[m].realm)
    ensures OtherMembershipAdmin(db, db.memberships[m].realm, m) <==> KeepsAdmins(db, SetRevoked(db, m))
  {
    RevocationExact(db, m);
  }

  // ---- Operations of several statements, undisturbed -----------------------

  /** The two statements of a protected revocation do what the method does. */
  lemma RevocationIsTwoStatements(s: Sys, tid: Tid, m: Id)
    requires tid !in s.threads && m in s.db.memberships
    ensures Run(s, [DoReadMembership(tid, m), DoRevokeRead(tid)]).db
         == if s.db.memberships[m].role == Admin then RevokeProtected(s.db, m) else RevokeMembership(s.db, m)
  {
    var read := Step(s, DoReadMembership(tid, m));
    assert [DoReadMembership(tid, m), DoRevokeRead(tid)][1..] == [DoRevokeRead(tid)] && [DoRevokeRead(tid)][1..] == [];
    assert Run(read, [DoRevokeRead(tid)]) == Run(Step(read, DoRevokeRead(tid)), []);
  }

  function RevokesListed(tid: Tid, order: seq<Id>): (r: seq<Action>)
    ensures |r| == |order|
  {
    if order == [] then [] else [DoRevokeListed(tid, order[0])] + RevokesListed(tid, order[1..])
  }

  lemma {:induction false} ListedRevoked(s: Sys, tid: Tid, order: seq<Id>)
    requires tid in s.threads && s.threads[tid].Revoking?
    requires forall m :: m in order ==> m in s.threads[tid].left && m in s.db.memberships
    requires forall i, j :: 0 <= i < j < |order| ==> order[i] != order[j]
    ensures var db := Run(s, RevokesListed(tid, order)).db;
      && db.accounts == s.db.accounts && db.bootstrap == s.db.bootstrap
      && db.memberships == map m | m in s.db.memberships ::
           if m in order then s.db.memberships[m].(revoked := true) else s.db.memberships[m]
    decreases |order|
  {
    if order != [] {
      var t := Step(s, DoRevokeListed(tid, order[0]));
      assert RevokesListed(tid, order)[1..] == RevokesListed(tid, order[1..]);
      assert forall m :: m in order <==> m == order[0] || m in order[1..];
      assert order[0] !in order[1..];
      ListedRevoked(t, tid, order[1..]);
    }
  }

  /** The statements of a deletion, its revocations in any order, do what the
      method does. */
  lemma DeletionIsItsStatements(s: Sys, tid: Tid, a: Id, expected: nat, order: seq<Id>)
    requires tid !in s.threads && Current(s.db, a, expected) && s.db.accounts[a].status == DeletionPending
    requires forall m :: m in order <==>
      m in s.db.memberships && s.db.memberships[m].account == a && !s.db.memberships[m].revoked
    requires forall i, j :: 0 <= i < j < |order| ==> order[i] != order[j]
    ensures Run(s, [DoTombstone(tid, a, expected), DoListMemberships(tid)] + RevokesListed(tid, order)).db
         == Deleted(s.db, a, expected)
  {
    var first := [DoTombstone(tid, a, expected), DoListMemberships(tid)];
    var s1 := Step(s, first[0]);
    assert s1.threads[tid] == Tombstoned(a);
    var s2 := Step(s1, first[1]);
    assert first[1..] == [first[1]] && [first[1]][1..] == [];
    assert Run(s1, [first[1]]) == Run(s2, []);
    RunSplits(s, first, RevokesListed(tid, order));
    ListedRevoked(s2, tid, order);
    assert Run(s2, RevokesListed(tid, order)).db.memberships == Deleted(s.db, a, expected).memberships;
  }
}
