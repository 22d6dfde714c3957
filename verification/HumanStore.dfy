/** The account and membership tables, one atomic SQL statement or transaction
    at a time. Identifiers are opaque; realms are identified the same way. */
module HumanStore {
  import opened Prelude

  type Id = nat

  datatype Status = Invited | Active | Disabled | Locked | RecoveryRequired | DeletionPending | DeletedTombstone

  datatype Role = Observer | Dispatcher | Approver | Reviewer | Admin | Runner

  datatype Account = Account(realm: Id, status: Status, revision: nat)

  datatype Membership = Membership(account: Id, realm: Id, role: Role, revoked: bool)

  /** `bootstrap` is the singleton row, naming the first administrator. */
  datatype Db = Db(accounts: map<Id, Account>, memberships: map<Id, Membership>, bootstrap: Option<Id>)

  const EMPTY := Db(map[], map[], None)

  // ---- Reads ---------------------------------------------------------------

  /** A row that `count_enabled_admins` counts. */
  predicate EnabledAdmin(db: Db, m: Id, realm: Id) {
    && m in db.memberships
    && var row := db.memberships[m];
       && row.realm == realm && row.role == Admin && !row.revoked
       && row.account in db.accounts && db.accounts[row.account].status == Active
  }

  predicate HasAdmin(db: Db, realm: Id) {
    exists m :: m in db.memberships && EnabledAdmin(db, m, realm)
  }

  /** The account has an unrevoked admin membership, whatever its own status. */
  predicate HoldsAdmin(db: Db, a: Id) {
    exists m :: m in db.memberships
      && db.memberships[m].account == a && db.memberships[m].role == Admin && !db.memberships[m].revoked
  }

  predicate OtherAccountAdmin(db: Db, realm: Id, a: Id) {
    exists m :: m in db.memberships && EnabledAdmin(db, m, realm) && db.memberships[m].account != a
  }

  predicate OtherMembershipAdmin(db: Db, realm: Id, m: Id) {
    exists n :: n in db.memberships && EnabledAdmin(db, n, realm) && n != m
  }

  // ---- Writes --------------------------------------------------------------

  function SetStatus(db: Db, a: Id, status: Status): Db
    requires a in db.accounts
  {
    var row := db.accounts[a];
    db.(accounts := db.accounts[a := row.(status := status, revision := row.revision + 1)])
  }

  function SetRevoked(db: Db, m: Id): Db
    requires m in db.memberships
  {
    db.(memberships := db.memberships[m := db.memberships[m].(revoked := true)])
  }

  /** The account exists and the caller's revision is current. */
  predicate Current(db: Db, a: Id, expected: nat) {
    a in db.accounts && db.accounts[a].revision == expected
  }

  /** `idx_human_memberships_active_role` and the primary key. */
  predicate MembershipConflict(db: Db, m: Id, a: Id, role: Role) {
    m in db.memberships ||
    exists n :: n in db.memberships
      && db.memberships[n].account == a && db.memberships[n].role == role && !db.memberships[n].revoked
  }

  /** No row under this key, and none that grants the account the role. */
  ghost predicate Room(memberships: map<Id, Membership>, m: Id, a: Id, role: Role) {
    && m !in memberships
    && forall n :: n in memberships && memberships[n].account == a && !memberships[n].revoked ==>
         memberships[n].role != role
  }

  function AddAccount(db: Db, realm: Id, a: Id, status: Status, m: Id, role: Role): Db {
    Db(db.accounts[a := Account(realm, status, 0)],
       db.memberships[m := Membership(a, realm, role, false)],
       db.bootstrap)
  }

  /** The transaction of first-administrator bootstrap and of genesis. Any
      conflict, here or on an index not modelled (`conflict`), undoes it all. */
  function Bootstrap(db: Db, realm: Id, a: Id, m: Id, conflict: bool): Db {
    if conflict || db.bootstrap.Some? || a in db.accounts || MembershipConflict(db, m, a, Admin) then db
    else AddAccount(db, realm, a, Active, m, Admin).(bootstrap := Some(a))
  }

  /** The transaction of account creation; `active` is false for an import,
      which may not grant admin. */
  function CreateAccount(db: Db, realm: Id, a: Id, m: Id, role: Role, active: bool, conflict: bool): Db {
    if role == Runner || (!active && role == Admin) then db
    else if conflict || a in db.accounts || MembershipConflict(db, m, a, role) then db
    else AddAccount(db, realm, a, if active then Active else Invited, m, role)
  }

  function GrantMembership(db: Db, realm: Id, a: Id, m: Id, role: Role): Db {
    if role == Runner || MembershipConflict(db, m, a, role) then db
    else db.(memberships := db.memberships[m := Membership(a, realm, role, false)])
  }

  function UpdateStatus(db: Db, a: Id, expected: nat, status: Status): Db {
    if Current(db, a, expected) then SetStatus(db, a, status) else db
  }

  /** The WHERE clause shared by protected disable and deletion. */
  predicate AccountGuard(db: Db, a: Id)
    requires a in db.accounts
  {
    !HoldsAdmin(db, a) || OtherAccountAdmin(db, db.accounts[a].realm, a)
  }

  function DisableProtected(db: Db, a: Id, expected: nat): Db {
    if Current(db, a, expected) && AccountGuard(db, a) then SetStatus(db, a, Disabled) else db
  }

  function InitiateDeletion(db: Db, a: Id, expected: nat): Db {
    if Current(db, a, expected) && db.accounts[a].status != DeletionPending
       && db.accounts[a].status != DeletedTombstone && AccountGuard(db, a)
    then SetStatus(db, a, DeletionPending)
    else db
  }

  function Tombstone(db: Db, a: Id, expected: nat): Db {
    if Current(db, a, expected) && db.accounts[a].status == DeletionPending
    then SetStatus(db, a, DeletedTombstone)
    else db
  }

  function ActiveMemberships(db: Db, a: Id): set<Id> {
    set m | m in db.memberships && db.memberships[m].account == a && !db.memberships[m].revoked
  }

  /** A whole deletion: the tombstone, and every membership of the account
      revoked. */
  function Deleted(db: Db, a: Id, expected: nat): Db {
    if Current(db, a, expected) && db.accounts[a].status == DeletionPending
    then
      Tombstone(db, a, expected).(memberships := map m | m in db.memberships ::
        if db.memberships[m].account == a then db.memberships[m].(revoked := true) else db.memberships[m])
    else db
  }

  /** `MembershipRepository::revoke`: no guard. */
  function RevokeMembership(db: Db, m: Id): Db {
    if m in db.memberships && !db.memberships[m].revoked then SetRevoked(db, m) else db
  }

  /** The admin branch of the protected revocation. */
  function RevokeProtected(db: Db, m: Id): Db {
    if m in db.memberships && !db.memberships[m].revoked
       && OtherMembershipAdmin(db, db.memberships[m].realm, m)
    then SetRevoked(db, m)
    else db
  }

  // ---- The tables as the store updates them --------------------------------

  class Store {
    var accounts: map<Id, Account>
    var memberships: map<Id, Membership>
    var bootstrap: Option<Id>

    function Contents(): Db
      reads this
    {
      Db(accounts, memberships, bootstrap)
    }

    constructor ()
      ensures Contents() == EMPTY
    {
      accounts, memberships, bootstrap := map[], map[], None;
    }

    method GetAccount(a: Id) returns (row: Option<Account>)
      ensures row == if a in accounts then Some(accounts[a]) else None
    {
      row := if a in accounts then Some(accounts[a]) else None;
    }

    method GetMembership(m: Id) returns (row: Option<Membership>)
      ensures row == if m in memberships then Some(memberships[m]) else None
    {
      row := if m in memberships then Some(memberships[m]) else None;
    }

    method BootstrapFirstAdministrator(realm: Id, a: Id, m: Id, conflict: bool) returns (won: bool)
      modifies this
      ensures Contents() == Bootstrap(old(Contents()), realm, a, m, conflict)
      ensures won <==> old(bootstrap).None? && bootstrap == Some(a) && HasAdmin(Contents(), realm)
      ensures won <==>
        !conflict && old(bootstrap).None? && a !in old(accounts) && Room(old(memberships), m, a, Admin)
      ensures won ==>
        && accounts == old(accounts)[a := Account(realm, Active, 0)]
        && memberships == old(memberships)[m := Membership(a, realm, Admin, false)]
      ensures !won ==> Contents() == old(Contents())
    {
      if conflict || bootstrap.Some? || a in accounts || MembershipConflict(Contents(), m, a, Admin) {
        return false;
      }
      bootstrap := Some(a);
      accounts := accounts[a := Account(realm, Active, 0)];
      memberships := memberships[m := Membership(a, realm, Admin, false)];
      assert EnabledAdmin(Contents(), m, realm);
      won := true;
    }

    method UpdateAccountStatus(a: Id, expected: nat, status: Status) returns (affected: bool)
      modifies this
      ensures Contents() == UpdateStatus(old(Contents()), a, expected, status)
      ensures affected <==> Contents() != old(Contents())
    {
      affected := a in accounts && accounts[a].revision == expected;
      if affected {
        accounts := accounts[a := accounts[a].(status := status, revision := expected + 1)];
        assert accounts[a] != old(accounts)[a];
      }
    }

    method DisableProtectingLastAdmin(a: Id, expected: nat) returns (affected: bool)
      modifies this
      ensures Contents() == DisableProtected(old(Contents()), a, expected)
      ensures affected <==> Contents() != old(Contents())
    {
      affected := Current(Contents(), a, expected) && AccountGuard(Contents(), a);
      if affected {
        accounts := accounts[a := accounts[a].(status := Disabled, revision := expected + 1)];
        assert accounts[a] != old(accounts)[a];
      }
    }

    method InitiateDeletionProtectingLastAdmin(a: Id, expected: nat) returns (affected: bool)
      modifies this
      ensures Contents() == InitiateDeletion(old(Contents()), a, expected)
      ensures affected <==> Contents() != old(Contents())
    {
      affected := Current(Contents(), a, expected) && accounts[a].status != DeletionPending
                  && accounts[a].status != DeletedTombstone && AccountGuard(Contents(), a);
      if affected {
        accounts := accounts[a := accounts[a].(status := DeletionPending, revision := expected + 1)];
        assert accounts[a] != old(accounts)[a];
      }
    }

    method Create(realm: Id, a: Id, m: Id, role: Role, active: bool, conflict: bool) returns (created: bool)
      modifies this
      ensures Contents() == CreateAccount(old(Contents()), realm, a, m, role, active, conflict)
      ensures created <==> Contents() != old(Contents())
      ensures created <==>
        && !conflict && role != Runner && (role == Admin ==> active)
        && a !in old(accounts) && Room(old(memberships), m, a, role)
      ensures created ==>
        && accounts == old(accounts)[a := Account(realm, if active then Active else Invited, 0)]
        && memberships == old(memberships)[m := Membership(a, realm, role, false)]
        && bootstrap == old(bootstrap)
    {
      if role == Runner || (!active && role == Admin) {
        return false;
      }
      if conflict || a in accounts || MembershipConflict(Contents(), m, a, role) {
        return false;
      }
      accounts := accounts[a := Account(realm, if active then Active else Invited, 0)];
      memberships := memberships[m := Membership(a, realm, role, false)];
      assert a !in old(accounts);
      created := true;
    }

    method Grant(realm: Id, a: Id, m: Id, role: Role) returns (granted: bool)
      modifies this
      ensures Contents() == GrantMembership(old(Contents()), realm, a, m, role)
      ensures granted <==> Contents() != old(Contents())
      ensures granted <==> role != Runner && Room(old(memberships), m, a, role)
      ensures granted ==>
        && accounts == old(accounts) && bootstrap == old(bootstrap)
        && memberships == old(memberships)[m := Membership(a, realm, role, false)]
    {
      granted := role != Runner && !MembershipConflict(Contents(), m, a, role);
      if granted {
        memberships := memberships[m := Membership(a, realm, role, false)];
        assert m !in old(memberships);
      }
    }

    /** `MembershipRepository::revoke`. */
    method Revoke(m: Id) returns (affected: bool)
      modifies this
      ensures Contents() == RevokeMembership(old(Contents()), m)
      ensures affected <==> Contents() != old(Contents())
    {
      affected := m in memberships && !memberships[m].revoked;
      if affected {
        memberships := memberships[m := memberships[m].(revoked := true)];
        assert memberships[m] != old(memberships)[m];
      }
    }

    method RevokeGuarded(m: Id) returns (affected: bool)
      modifies this
      ensures Contents() == RevokeProtected(old(Contents()), m)
      ensures affected <==> Contents() != old(Contents())
    {
      affected := m in memberships && !memberships[m].revoked
                  && OtherMembershipAdmin(Contents(), memberships[m].realm, m);
      if affected {
        memberships := memberships[m := memberships[m].(revoked := true)];
        assert memberships[m] != old(memberships)[m];
      }
    }

    /** Reads the role, then runs the guarded or the plain statement. */
    method RevokeMembershipProtectingLastAdmin(m: Id) returns (affected: bool)
      modifies this
      ensures Contents() == if m in old(memberships) && old(memberships)[m].role == Admin
                            then RevokeProtected(old(Contents()), m)
                            else RevokeMembership(old(Contents()), m)
      ensures affected <==> Contents() != old(Contents())
    {
      if m !in memberships {
        return false;
      }
      if memberships[m].role == Admin {
        affected := RevokeGuarded(m);
      } else {
        affected := Revoke(m);
      }
    }

    method TombstoneAccount(a: Id, expected: nat) returns (affected: bool)
      modifies this
      ensures Contents() == Tombstone(old(Contents()), a, expected)
      ensures affected <==> Contents() != old(Contents())
    {
      affected := Current(Contents(), a, expected) && accounts[a].status == DeletionPending;
      if affected {
        accounts := accounts[a := accounts[a].(status := DeletedTombstone, revision := expected + 1)];
        assert accounts[a] != old(accounts)[a];
      }
    }

    method ListActive(a: Id) returns (listed: set<Id>)
      ensures listed == ActiveMemberships(Contents(), a)
    {
      listed := set m | m in memberships && memberships[m].account == a && !memberships[m].revoked;
    }

    /** Tombstones the row, lists what the account still holds, then revokes that
        with the unguarded statement, one membership at a time. */
    method CompleteDeletion(a: Id, expected: nat) returns (affected: bool)
      modifies this
      ensures affected <==> Tombstone(old(Contents()), a, expected) != old(Contents())
      ensures Contents() == Deleted(old(Contents()), a, expected)
      ensures affected ==> forall m :: m in memberships && memberships[m].account == a ==> memberships[m].revoked
    {
      affected := TombstoneAccount(a, expected);
      if affected {
        var left := ListActive(a);
        while left != {}
          invariant accounts == Tombstone(old(Contents()), a, expected).accounts && bootstrap == old(bootstrap)
          invariant memberships.Keys == old(memberships).Keys
          invariant left <= memberships.Keys
          invariant forall m :: m in left ==> memberships[m] == old(memberships)[m] && memberships[m].account == a
          invariant forall m :: m in memberships && m !in left ==>
            memberships[m] == if old(memberships)[m].account == a
                              then old(memberships)[m].(revoked := true) else old(memberships)[m]
        {
          var m :| m in left;
          left := left - {m};
          var revoked := Revoke(m);
        }
      }
    }
  }
}
