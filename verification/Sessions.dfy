/** Session rows: refresh rotation, replay, key binding, step-up and revocation,
    one SQL statement at a time. Secrets stand for their hashes. */
module Sessions {
  import opened Prelude

  type Id = nat
  type Tid = nat
  type Secret = nat

  datatype Session = Session(
    account: Id, family: Id, access: Secret, refresh: Secret, key: Option<string>, elevated: bool, revoked: bool)

  type Table = map<Id, Session>

  function NewSession(account: Id, family: Id, access: Secret, refresh: Secret): Session {
    Session(account, family, access, refresh, None, false, false)
  }

  // ---- Statements ----------------------------------------------------------

  predicate Live(t: Table, id: Id) {
    id in t && !t[id].revoked
  }

  function RevokeOne(t: Table, id: Id): Table {
    if Live(t, id) then t[id := t[id].(revoked := true)] else t
  }

  function RevokeFamily(t: Table, family: Id): Table {
    map id | id in t :: if t[id].family == family then t[id].(revoked := true) else t[id]
  }

  ghost predicate FamilyRevoked(t: Table, family: Id) {
    forall id :: id in t && t[id].family == family ==> t[id].revoked
  }

  function RevokeAccount(t: Table, account: Id): Table {
    map id | id in t :: if t[id].account == account then t[id].(revoked := true) else t[id]
  }

  function BindKey(t: Table, id: Id, key: string): Table {
    if Live(t, id) && t[id].key.None? then t[id := t[id].(key := Some(key))] else t
  }

  /** The compare-and-set of `rotate_refresh`. */
  predicate CasHolds(t: Table, id: Id, expected: Secret) {
    Live(t, id) && t[id].refresh == expected
  }

  function CasRefresh(t: Table, id: Id, expected: Secret, newer: Secret): Table {
    if CasHolds(t, id, expected) then t[id := t[id].(refresh := newer)] else t
  }

  function StepUp(t: Table, id: Id, access: Secret): Table {
    if Live(t, id) then t[id := t[id].(access := access, elevated := true)] else t
  }

  /** `validate_by_access_hash` finds a session. */
  ghost predicate Validates(t: Table, access: Secret) {
    exists id :: id in t && !t[id].revoked && t[id].access == access
  }

  // ---- A refresh call, statement by statement ------------------------------

  datatype Refreshed = Rotated | SessionNotFound | SessionRevoked | ReplayDetected

  /** What a refresh call has left to do after its read. */
  datatype Thread =
    | Swapping(session: Id, expected: Secret, newer: Secret)
    | Replaying(session: Id, family: Id)

  datatype Outcome = Replied(reply: Refreshed) | Continue(thread: Thread)

  /** The read decides between the two writes, or ends the call. */
  function AfterRead(t: Table, id: Id, expected: Secret, newer: Secret): Outcome {
    if id !in t then Replied(SessionNotFound)
    else if t[id].revoked then Replied(SessionRevoked)
    else if t[id].refresh == expected then Continue(Swapping(id, expected, newer))
    else Continue(Replaying(id, t[id].family))
  }

  /** The second statement. The code ignores a failure to revoke the family;
      `stored` says whether that write took effect. */
  function Finished(t: Table, thread: Thread, stored: bool): Table {
    match thread
    case Swapping(id, expected, newer) => CasRefresh(t, id, expected, newer)
    case Replaying(_, family) => if stored then RevokeFamily(t, family) else t
  }

  function FinalReply(t: Table, thread: Thread): Refreshed {
    if thread.Swapping? && CasHolds(t, thread.session, thread.expected) then Rotated else ReplayDetected
  }

  // ---- The table as the store updates it -----------------------------------

  class SessionStore {
    var table: Table

    constructor ()
      ensures table == map[]
    {
      table := map[];
    }

    method Issue(id: Id, account: Id, family: Id, access: Secret, refresh: Secret) returns (ok: bool)
      modifies this
      ensures ok <==> id !in old(table)
      ensures table == if ok then old(table)[id := NewSession(account, family, access, refresh)] else old(table)
    {
      ok := id !in table;
      if ok {
        table := table[id := NewSession(account, family, access, refresh)];
      }
    }

    /** The SELECT of a refresh call and the branches on its row. */
    method ReadRefresh(id: Id, expected: Secret, newer: Secret) returns (r: Outcome)
      ensures r == AfterRead(table, id, expected, newer)
    {
      if id !in table {
        return Replied(SessionNotFound);
      }
      if table[id].revoked {
        return Replied(SessionRevoked);
      }
      if table[id].refresh != expected {
        return Continue(Replaying(id, table[id].family));
      }
      r := Continue(Swapping(id, expected, newer));
    }

    /** The UPDATE that follows, on whatever the table has become. */
    method FinishRefresh(thread: Thread, stored: bool) returns (r: Refreshed)
      modifies this
      ensures table == Finished(old(table), thread, stored)
      ensures r == FinalReply(old(table), thread)
      ensures r.Rotated? ==>
        thread.Swapping? && Live(table, thread.session) && table[thread.session].refresh == thread.newer
      ensures thread.Swapping? && !r.Rotated? ==> table == old(table)
      ensures thread.Replaying? && stored ==> FamilyRevoked(table, thread.family)
    {
      match thread {
        case Swapping(id, expected, newer) =>
          if id !in table || table[id].revoked || table[id].refresh != expected {
            return ReplayDetected;
          }
          table := table[id := table[id].(refresh := newer)];
          r := Rotated;
        case Replaying(_, family) =>
          if stored {
            table := map id | id in table ::
              if table[id].family == family then table[id].(revoked := true) else table[id];
          }
          r := ReplayDetected;
      }
    }

    /** A whole call with no other statement in between. */
    method RotateRefresh(id: Id, expected: Secret, newer: Secret, stored: bool) returns (r: Refreshed)
      modifies this
      ensures r.SessionNotFound? <==> id !in old(table)
      ensures r.SessionRevoked? <==> id in old(table) && old(table)[id].revoked
      ensures r.Rotated? <==> CasHolds(old(table), id, expected)
      ensures r.Rotated? ==> table == CasRefresh(old(table), id, expected, newer)
      ensures r.ReplayDetected? && stored ==>
        table == RevokeFamily(old(table), old(table)[id].family) && FamilyRevoked(table, old(table)[id].family)
      ensures !r.Rotated? && !(r.ReplayDetected? && stored) ==> table == old(table)
    {
      var outcome := ReadRefresh(id, expected, newer);
      match outcome {
        case Replied(reply) => r := reply;
        case Continue(thread) => r := FinishRefresh(thread, stored);
      }
    }

    method BindPublicKey(id: Id, key: string) returns (bound: bool)
      modifies this
      ensures table == BindKey(old(table), id, key)
      ensures bound <==> Live(old(table), id) && old(table)[id].key.None?
      ensures forall jd :: jd in old(table) && old(table)[jd].key.Some? ==> table[jd] == old(table)[jd]
    {
      bound := id in table && table[id].key.None? && !table[id].revoked;
      if bound {
        table := table[id := table[id].(key := Some(key))];
      }
    }

    method RotateAccessAndElevate(id: Id, access: Secret) returns (done: bool)
      modifies this
      ensures table == StepUp(old(table), id, access)
      ensures done <==> Live(old(table), id)
      ensures done ==> Validates(table, access)
      ensures !done ==> table == old(table)
    {
      done := id in table && !table[id].revoked;
      if done {
        table := table[id := table[id].(access := access, elevated := true)];
        assert table[id].access == access && !table[id].revoked;
      }
    }

    method Revoke(id: Id)
      modifies this
      ensures table == RevokeOne(old(table), id)
    {
      if id in table && !table[id].revoked {
        table := table[id := table[id].(revoked := true)];
      }
    }

    method RevokeAllForAccount(account: Id)
      modifies this
      ensures table == RevokeAccount(old(table), account)
    {
      table := map id | id in table :: if table[id].account == account then table[id].(revoked := true) else table[id];
    }
  }

  // ---- Interleavings -------------------------------------------------------

  datatype Reply = Reply(session: Id, reply: Refreshed)

  /** `seen` holds every secret generated so far, `redeemed` the refresh secrets
      exchanged so far, `retired` the access secrets replaced by a step-up,
      `bound` the sessions whose key binding succeeded and `replies` what
      refresh calls have been told, both in order. */
  datatype Sys = Sys(
    table: Table, threads: map<Tid, Thread>, seen: set<Secret>, redeemed: seq<Secret>, retired: set<Secret>,
    bound: seq<Id>, replies: seq<Reply>)

  const START := Sys(map[], map[], {}, [], {}, [], [])

  /** One statement of one call: what the methods of the store class do. */
  datatype Action =
    | DoIssue(id: Id, account: Id, family: Id, access: Secret, refresh: Secret)
    | DoBind(id: Id, key: string)
    | DoReadRefresh(tid: Tid, id: Id, expected: Secret, newer: Secret)
    | DoFinish(tid: Tid, stored: bool)
    | DoRevoke(id: Id)
    | DoRevokeAccount(account: Id)
    | DoStepUp(id: Id, access: Secret)
    | DoGiveUp(tid: Tid)

  function Step(s: Sys, a: Action): Sys {
    match a
    case DoIssue(id, account, family, access, refresh) =>
      if id in s.table then s
      else s.(table := s.table[id := NewSession(account, family, access, refresh)], seen := s.seen + {access, refresh})
    case DoBind(id, key) =>
      if Live(s.table, id) && s.table[id].key.None?
      then s.(table := BindKey(s.table, id, key), bound := s.bound + [id])
      else s
    case DoReadRefresh(tid, id, expected, newer) =>
      if tid in s.threads then s
      else (match AfterRead(s.table, id, expected, newer)
            case Replied(reply) => s.(replies := s.replies + [Reply(id, reply)])
            case Continue(thread) =>
              s.(threads := s.threads[tid := thread], seen := if thread.Swapping? then s.seen + {newer} else s.seen))
    case DoFinish(tid, stored) =>
      if tid !in s.threads then s
      else
        var thread := s.threads[tid];
        var reply := FinalReply(s.table, thread);
        s.(table := Finished(s.table, thread, stored), threads := s.threads - {tid},
           redeemed := if reply.Rotated? then s.redeemed + [thread.expected] else s.redeemed,
           replies := s.replies + [Reply(thread.session, reply)])
    case DoRevoke(id) => s.(table := RevokeOne(s.table, id))
    case DoRevokeAccount(account) => s.(table := RevokeAccount(s.table, account))
    case DoStepUp(id, access) =>
      if Live(s.table, id)
      then s.(table := StepUp(s.table, id, access), seen := s.seen + {access},
              retired := s.retired + {s.table[id].access})
      else s
    case DoGiveUp(tid) => s.(threads := s.threads - {tid})
  }

  /** Each step is one call on the store: the table, the calls in flight and the
      reply are those of the transition system. */
  method Perform(store: SessionStore, threads: map<Tid, Thread>, a: Action, ghost s: Sys)
    returns (after: map<Tid, Thread>, reply: Option<Reply>)
    requires s.table == store.table && s.threads == threads
    modifies store
    ensures store.table == Step(s, a).table && after == Step(s, a).threads
    ensures Step(s, a).replies == if reply.Some? then s.replies + [reply.value] else s.replies
  {
    after, reply := threads, None;
    match a {
      case DoIssue(id, account, family, access, refresh) =>
        var ok := store.Issue(id, account, family, access, refresh);
      case DoBind(id, key) =>
        var bound := store.BindPublicKey(id, key);
      case DoReadRefresh(tid, id, expected, newer) =>
        if tid !in threads {
          var outcome := store.ReadRefresh(id, expected, newer);
          match outcome {
            case Replied(r) => reply := Some(Reply(id, r));
            case Continue(thread) => after := threads[tid := thread];
          }
        }
      case DoFinish(tid, stored) =>
        if tid in threads {
          var r := store.FinishRefresh(threads[tid], stored);
          after, reply := threads - {tid}, Some(Reply(threads[tid].session, r));
        }
      case DoRevoke(id) =>
        store.Revoke(id);
      case DoRevokeAccount(account) =>
        store.RevokeAllForAccount(account);
      case DoStepUp(id, access) =>
        var done := store.RotateAccessAndElevate(id, access);
      case DoGiveUp(tid) =>
        after := threads - {tid};
    }
  }

  /** Generated secrets are new; presented ones are arbitrary. */
  predicate Fresh(s: Sys, a: Action) {
    match a
    case DoIssue(_, _, _, access, refresh) => access !in s.seen && refresh !in s.seen && access != refresh
    case DoReadRefresh(_, _, _, newer) => newer !in s.seen
    case DoStepUp(_, access) => access !in s.seen
    case _ => true
  }

  function Run(s: Sys, actions: seq<Action>): Sys
    decreases |actions|
  {
    if actions == [] then s else Run(Step(s, actions[0]), actions[1..])
  }

  predicate FreshRun(s: Sys, actions: seq<Action>)
    decreases |actions|
  {
    actions != [] ==> Fresh(s, actions[0]) && FreshRun(Step(s, actions[0]), actions[1..])
  }

  // ---- The invariant -------------------------------------------------------

  ghost predicate SecretsSeen(s: Sys) {
    && (forall id :: id in s.table ==> s.table[id].access in s.seen && s.table[id].refresh in s.seen)
    && (forall tid :: tid in s.threads && s.threads[tid].Swapping? ==> s.threads[tid].newer in s.seen)
    && (forall x :: x in s.redeemed ==> x in s.seen)
    && s.retired <= s.seen
  }

  ghost predicate BothSwapping(s: Sys, tid: Tid, uid: Tid) {
    && tid in s.threads && uid in s.threads && tid != uid
    && s.threads[tid].Swapping? && s.threads[uid].Swapping?
  }

  ghost predicate Unspent(s: Sys) {
    forall id :: id in s.table ==> s.table[id].refresh !in s.redeemed && s.table[id].access !in s.retired
  }

  ghost predicate Unshared(t: Table) {
    forall id, jd :: id in t && jd in t && id != jd ==> t[id].refresh != t[jd].refresh && t[id].access != t[jd].access
  }

  /** The secret of a pending swap belongs to no session, no other swap and
      not to the past. */
  ghost predicate SwapsOwn(s: Sys) {
    && (forall tid :: tid in s.threads && s.threads[tid].Swapping? ==> s.threads[tid].newer !in s.redeemed)
    && (forall tid, id :: tid in s.threads && s.threads[tid].Swapping? && id in s.table ==>
          s.threads[tid].newer != s.table[id].refresh)
    && (forall tid, uid :: BothSwapping(s, tid, uid) ==> s.threads[tid].newer != s.threads[uid].newer)
  }

  ghost predicate OneOwner(s: Sys) {
    Unspent(s) && Unshared(s.table) && SwapsOwn(s)
  }

  ghost predicate Distinct(xs: seq<Secret>) {
    forall i, j :: 0 <= i < j < |xs| ==> xs[i] != xs[j]
  }

  ghost predicate Inv(s: Sys) {
    SecretsSeen(s) && OneOwner(s) && Distinct(s.redeemed)
  }

  /** A table may only change so: revocation and bound keys are permanent. */
  ghost predicate Evolves(t: Table, u: Table) {
    forall id :: id in t ==>
      && id in u && u[id].account == t[id].account && u[id].family == t[id].family
      && (t[id].revoked ==> u[id] == t[id])
      && (t[id].key.Some? ==> u[id].key == t[id].key)
      && (t[id].elevated ==> u[id].elevated)
  }

  lemma StepEvolves(s: Sys, a: Action)
    ensures Evolves(s.table, Step(s, a).table)
    ensures s.retired <= Step(s, a).retired && s.redeemed <= Step(s, a).redeemed
  {
  }

  /** A call keeps to the session it has read. */
  ghost predicate ThreadsKnow(s: Sys) {
    forall tid :: tid in s.threads ==>
      && s.threads[tid].session in s.table
      && (s.threads[tid].Replaying? ==> s.threads[tid].family == s.table[s.threads[tid].session].family)
  }

  ghost predicate BoundKeys(s: Sys) {
    && (forall id :: id in s.bound ==> id in s.table && s.table[id].key.Some?)
    && (forall i, j :: 0 <= i < j < |s.bound| ==> s.bound[i] != s.bound[j])
  }

  lemma StepKnows(s: Sys, a: Action)
    requires ThreadsKnow(s)
    ensures ThreadsKnow(Step(s, a))
  {
    StepEvolves(s, a);
  }

  lemma StepBound(s: Sys, a: Action)
    requires BoundKeys(s)
    ensures BoundKeys(Step(s, a))
  {
    StepEvolves(s, a);
  }

  lemma StepSeen(s: Sys, a: Action)
    requires SecretsSeen(s)
    ensures SecretsSeen(Step(s, a))
  {
  }

  lemma StepDistinct(s: Sys, a: Action)
    requires Inv(s)
    ensures Distinct(Step(s, a).redeemed)
  {
  }

  lemma StepUnspent(s: Sys, a: Action)
    requires Inv(s) && Fresh(s, a)
    ensures Unspent(Step(s, a))
  {
  }

  lemma StepUnshared(s: Sys, a: Action)
    requires Inv(s) && Fresh(s, a)
    ensures Unshared(Step(s, a).table)
  {
  }

  lemma StepSwapsOwn(s: Sys, a: Action)
    requires Inv(s) && Fresh(s, a)
    ensures SwapsOwn(Step(s, a))
  {
    var t := Step(s, a);
    forall tid, uid | BothSwapping(t, tid, uid)
      ensures t.threads[tid].newer != t.threads[uid].newer
    {
      if tid in s.threads && uid in s.threads {
        assert BothSwapping(s, tid, uid);
      }
    }
  }

  lemma StepKeeps(s: Sys, a: Action)
    requires Inv(s) && Fresh(s, a)
    ensures Inv(Step(s, a))
  {
    StepSeen(s, a);
    StepUnspent(s, a);
    StepUnshared(s, a);
    StepDistinct(s, a);
    StepSwapsOwn(s, a);
  }

  // ---- Whole runs ----------------------------------------------------------

  lemma {:induction false} RunKeeps(s: Sys, actions: seq<Action>)
    requires Inv(s) && FreshRun(s, actions)
    ensures Inv(Run(s, actions))
    decreases |actions|
  {
    if actions != [] {
      StepKeeps(s, actions[0]);
      RunKeeps(Step(s, actions[0]), actions[1..]);
    }
  }

  lemma {:induction false} RunEvolves(s: Sys, actions: seq<Action>)
    ensures Evolves(s.table, Run(s, actions).table)
    ensures s.retired <= Run(s, actions).retired && s.redeemed <= Run(s, actions).redeemed
    decreases |actions|
  {
    if actions != [] {
      StepEvolves(s, actions[0]);
      RunEvolves(Step(s, actions[0]), actions[1..]);
    }
  }

  /** Over every interleaving with fresh secrets, no refresh secret is redeemed
      twice, in one session or across sessions. */
  lemma RedeemedOnce(actions: seq<Action>)
    requires FreshRun(START, actions)
    ensures Distinct(Run(START, actions).redeemed)
  {
    RunKeeps(START, actions);
  }

  /** Revocation is permanent and a bound key never changes, in any run. */
  lemma RevokedForGood(s: Sys, actions: seq<Action>, id: Id)
    requires id in s.table
    ensures var t := Run(s, actions).table;
      && id in t
      && (s.table[id].revoked ==> t[id] == s.table[id])
      && (s.table[id].key.Some? ==> t[id].key == s.table[id].key)
  {
    RunEvolves(s, actions);
  }

  /** After a step-up no later state accepts the access secret it replaced. */
  lemma StepUpRetires(s: Sys, id: Id, access: Secret, actions: seq<Action>)
    requires Inv(s) && Live(s.table, id) && access !in s.seen
    requires FreshRun(Step(s, DoStepUp(id, access)), actions)
    ensures var t := Step(s, DoStepUp(id, access));
      Validates(t.table, access) && !Validates(Run(t, actions).table, s.table[id].access)
  {
    var t := Step(s, DoStepUp(id, access));
    StepKeeps(s, DoStepUp(id, access));
    RunKeeps(t, actions);
    RunEvolves(t, actions);
    assert t.table[id].access == access && !t.table[id].revoked;
  }

  /** In any run a session's key is bound at most once. */
  lemma {:induction false} RunBound(s: Sys, actions: seq<Action>)
    requires BoundKeys(s) && ThreadsKnow(s)
    ensures BoundKeys(Run(s, actions)) && ThreadsKnow(Run(s, actions))
    decreases |actions|
  {
    if actions != [] {
      StepBound(s, actions[0]);
      StepKnows(s, actions[0]);
      RunBound(Step(s, actions[0]), actions[1..]);
    }
  }

  lemma BoundOnce(actions: seq<Action>)
    ensures var s := Run(START, actions);
      && (forall i, j :: 0 <= i < j < |s.bound| ==> s.bound[i] != s.bound[j])
      && (forall id :: id in s.bound ==> id in s.table && s.table[id].key.Some?)
  {
    RunBound(START, actions);
  }

  /** Presenting a refresh secret that was already redeemed, for a live session,
      never swaps: the call turns to revoking the family, and when it does,
      every session of the family is revoked for good. */
  lemma ReplayRevokesFamily(
      s: Sys, tid: Tid, id: Id, spent: Secret, newer: Secret, between: seq<Action>, after: seq<Action>)
    requires Inv(s) && Live(s.table, id) && spent in s.redeemed && tid !in s.threads
    requires var r := Run(Step(s, DoReadRefresh(tid, id, spent, newer)), between);
      tid in r.threads && r.threads[tid] == Replaying(id, s.table[id].family)
    ensures Step(s, DoReadRefresh(tid, id, spent, newer)).threads[tid] == Replaying(id, s.table[id].family)
    ensures var r := Run(Step(s, DoReadRefresh(tid, id, spent, newer)), between);
      var t := Run(Step(r, DoFinish(tid, true)), after).table;
      forall jd :: jd in s.table && s.table[jd].family == s.table[id].family ==> jd in t && t[jd].revoked
  {
    var read := Step(s, DoReadRefresh(tid, id, spent, newer));
    var r := Run(read, between);
    RunEvolves(read, between);
    RunEvolves(Step(r, DoFinish(tid, true)), after);
  }

  // ---- What each call brings about -----------------------------------------

  /** All rows but `id`'s are as they were. */
  ghost predicate OnlyAt(t: Table, u: Table, id: Id) {
    u.Keys == t.Keys && forall jd :: jd in t && jd != id ==> u[jd] == t[jd]
  }

  /** The rows that meet the condition are revoked and otherwise as they were;
      the others are as they were. */
  ghost predicate RevokesJust(t: Table, u: Table, meets: Session -> bool) {
    u.Keys == t.Keys && forall jd :: jd in t ==> u[jd] == if meets(t[jd]) then t[jd].(revoked := true) else t[jd]
  }

  /** A revoked session stays so through any run, and no other session has
      changed at the revocation. */
  lemma RevocationTakesEffect(s: Sys, id: Id, later: seq<Action>)
    requires id in s.table
    ensures OnlyAt(s.table, Step(s, DoRevoke(id)).table, id)
    ensures var u := Run(Step(s, DoRevoke(id)), later).table; id in u && u[id].revoked
  {
    RunEvolves(Step(s, DoRevoke(id)), later);
  }

  /** Revoking an account revokes its sessions and no others, for good. */
  lemma AccountRevocationTakesEffect(s: Sys, account: Id, later: seq<Action>)
    ensures RevokesJust(s.table, Step(s, DoRevokeAccount(account)).table, (row: Session) => row.account == account)
    ensures var u := Run(Step(s, DoRevokeAccount(account)), later).table;
      forall id :: id in s.table && s.table[id].account == account ==> id in u && u[id].revoked
  {
    RunEvolves(Step(s, DoRevokeAccount(account)), later);
  }

  /** A stored replay revokes the family and no session besides. */
  lemma FamilyRevocationTakesEffect(s: Sys, tid: Tid)
    requires tid in s.threads && s.threads[tid].Replaying?
    ensures var family := s.threads[tid].family;
      RevokesJust(s.table, Step(s, DoFinish(tid, true)).table, (row: Session) => row.family == family)
  {
  }

  /** Once a session is revoked, however that came about, its access secret
      validates in no later state. */
  lemma RevokedSecretsDie(s: Sys, id: Id, later: seq<Action>)
    requires Inv(s) && id in s.table && s.table[id].revoked && FreshRun(s, later)
    ensures !Validates(Run(s, later).table, s.table[id].access)
  {
    RunKeeps(s, later);
    RunEvolves(s, later);
  }

  /** So after `DoRevoke` and `DoRevokeAccount` every secret they were meant to
      end is dead. */
  lemma RevokingEndsAccess(s: Sys, id: Id, later: seq<Action>)
    requires Inv(s) && id in s.table
    ensures FreshRun(Step(s, DoRevoke(id)), later) ==>
      !Validates(Run(Step(s, DoRevoke(id)), later).table, s.table[id].access)
    ensures var all := Step(s, DoRevokeAccount(s.table[id].account));
      FreshRun(all, later) ==> !Validates(Run(all, later).table, s.table[id].access)
  {
    var one, all := Step(s, DoRevoke(id)), Step(s, DoRevokeAccount(s.table[id].account));
    StepKeeps(s, DoRevoke(id));
    StepKeeps(s, DoRevokeAccount(s.table[id].account));
    if FreshRun(one, later) {
      RevokedSecretsDie(one, id, later);
    }
    if FreshRun(all, later) {
      RevokedSecretsDie(all, id, later);
    }
  }

  /** A new session is the account's, in its family, without a key or elevation;
      its access secret validates, and its refresh secret rotates to the new one. */
  lemma IssuedSessionWorks(
      s: Sys, id: Id, account: Id, family: Id, access: Secret, refresh: Secret, tid: Tid, newer: Secret)
    requires id !in s.table && tid !in s.threads
    ensures var t := Step(s, DoIssue(id, account, family, access, refresh));
      && OnlyAt(s.table[id := t.table[id]], t.table, id) && id in t.table && t.table[id].account == account
      && t.table[id].family == family && t.table[id].key == None && !t.table[id].elevated && Validates(t.table, access)
    ensures var t := Step(s, DoIssue(id, account, family, access, refresh));
      var u := Step(Step(t, DoReadRefresh(tid, id, refresh, newer)), DoFinish(tid, true));
      && u.table == t.table[id := t.table[id].(refresh := newer)]
      && u.replies == s.replies + [Reply(id, Rotated)] && u.redeemed == s.redeemed + [refresh]
  {
    var t := Step(s, DoIssue(id, account, family, access, refresh));
    assert t.table[id].access == access && !t.table[id].revoked;
    var read := Step(t, DoReadRefresh(tid, id, refresh, newer));
    assert read.threads[tid] == Swapping(id, refresh, newer) && CasHolds(read.table, id, refresh);
  }

  /** A first binding stores the key it was given; a step-up elevates the session
      and gives it the new secret; neither touches another session. */
  lemma BindingAndStepUp(s: Sys, id: Id, key: string, access: Secret)
    requires Live(s.table, id)
    ensures var t := Step(s, DoStepUp(id, access)).table;
      OnlyAt(s.table, t, id) && t[id].elevated && t[id].access == access && t[id].refresh == s.table[id].refresh
    ensures s.table[id].key.None? ==>
      var t := Step(s, DoBind(id, key)).table;
      OnlyAt(s.table, t, id) && t[id].key == Some(key) && t[id].access == s.table[id].access && !t[id].revoked
  {
  }

  // ---- When a report of replay is true -------------------------------------

  /** The report says that the token family has been revoked. In every run, at
      the statement that makes a call report so, it is true exactly when that
      statement revoked the family or the family was revoked already. */
  lemma ReplayReportExact(before: seq<Action>, a: Action, id: Id)
    requires var s := Run(START, before); Step(s, a).replies == s.replies + [Reply(id, ReplayDetected)]
    ensures var s := Run(START, before);
      && id in s.table && a.DoFinish? && a.tid in s.threads && s.threads[a.tid].session == id
      && var family := s.table[id].family;
         (FamilyRevoked(Step(s, a).table, family) <==>
            (s.threads[a.tid].Replaying? && a.stored) || FamilyRevoked(s.table, family))
  {
    var s := Run(START, before);
    RunBound(START, before);
    assert Step(s, a).replies[|s.replies|] == Reply(id, ReplayDetected);
    assert s.threads[a.tid].session in s.table;
  }

  /** A swap ends in that report exactly when its secret is no longer current. */
  lemma SwapReportExact(s: Sys, tid: Tid, stored: bool)
    requires tid in s.threads && s.threads[tid].Swapping?
    ensures var Swapping(id, expected, newer) := s.threads[tid];
      var t := Step(s, DoFinish(tid, stored));
      && (t.replies == s.replies + [Reply(id, ReplayDetected)] <==> !CasHolds(s.table, id, expected))
      && (!CasHolds(s.table, id, expected) ==> t.table == s.table)
  {
    var t := Step(s, DoFinish(tid, stored));
    assert t.replies[|s.replies|] == Reply(s.threads[tid].session, FinalReply(s.table, s.threads[tid]));
  }

  /** The failing input: two calls read the same live secret; one swaps it, the
      other loses and is told that the family has been revoked. It has not. */
  lemma LostRaceKeepsFamily(s: Sys, one: Tid, two: Tid, id: Id, a: Secret, b: Secret)
    requires Live(s.table, id) && one !in s.threads && two !in s.threads && one != two && a != s.table[id].refresh
    ensures var x := s.table[id].refresh;
      var done := Run(s, [DoReadRefresh(one, id, x, a), DoReadRefresh(two, id, x, b),
                          DoFinish(one, true), DoFinish(two, true)]);
      && done.redeemed == s.redeemed + [x]
      && done.table == s.table[id := s.table[id].(refresh := a)]
      && done.replies == s.replies + [Reply(id, Rotated), Reply(id, ReplayDetected)]
      && !FamilyRevoked(done.table, s.table[id].family)
  {
    var x := s.table[id].refresh;
    var s1 := Step(s, DoReadRefresh(one, id, x, a));
    var s2 := Step(s1, DoReadRefresh(two, id, x, b));
    assert s2.threads[one] == Swapping(id, x, a) && s2.threads[two] == Swapping(id, x, b);
    var s3 := Step(s2, DoFinish(one, true));
    assert s3.threads[two] == Swapping(id, x, b) && !CasHolds(s3.table, id, x);
    var s4 := Step(s3, DoFinish(two, true));
    assert s4.table[id].family == s.table[id].family && !s4.table[id].revoked;
    assert s4.replies == s.replies + [Reply(id, Rotated), Reply(id, ReplayDetected)];
    RunFour(s, DoReadRefresh(one, id, x, a), DoReadRefresh(two, id, x, b), DoFinish(one, true), DoFinish(two, true));
  }

  /** The other one: the write that should revoke the family fails, and the code
      does not look. */
  lemma LostWriteKeepsFamily(s: Sys, tid: Tid)
    requires tid in s.threads && s.threads[tid].Replaying? && !FamilyRevoked(s.table, s.threads[tid].family)
    ensures var t := Step(s, DoFinish(tid, false));
      && t.replies == s.replies + [Reply(s.threads[tid].session, ReplayDetected)]
      && !FamilyRevoked(t.table, s.threads[tid].family)
  {
  }

  lemma RunFour(s: Sys, a: Action, b: Action, c: Action, d: Action)
    ensures Run(s, [a, b, c, d]) == Step(Step(Step(Step(s, a), b), c), d)
  {
    var s1 := Step(s, a);
    var s2 := Step(s1, b);
    var s3 := Step(s2, c);
    assert [a, b, c, d][1..] == [b, c, d] && [b, c, d][1..] == [c, d] && [c, d][1..] == [d] && [d][1..] == [];
    assert Run(s3, [d]) == Run(Step(s3, d), []);
    assert Run(s2, [c, d]) == Run(s3, [d]);
  }
}
