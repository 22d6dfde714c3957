/** The passkey replay guard: one compare-and-set on a credential's stored
    signature counter, with its carve-out for authenticators that report 0. */
module SignCounter {
  import opened Prelude

  /** The WHERE clause of the update. */
  predicate Accepts(stored: Option<nat>, reported: nat) {
    reported == 0 || stored.None? || stored.value < reported
  }

  /** A webauthn credential row and, for the proofs, what it has accepted. */
  class Credential {
    var stored: Option<nat>
    var revoked: bool
    ghost var accepted: seq<nat>

    ghost predicate Valid()
      reads this
    {
      Accepted(accepted) && stored == Last(accepted)
    }

    constructor ()
      ensures Valid() && accepted == [] && !revoked
    {
      stored, revoked, accepted := None, false, [];
    }

    method VerifyAndAdvance(reported: nat) returns (ok: bool)
      requires Valid()
      modifies this
      ensures Valid() && revoked == old(revoked)
      ensures ok <==> !revoked && Accepts(old(stored), reported)
      ensures accepted == if ok then old(accepted) + [reported] else old(accepted)
      ensures stored == if ok then Some(reported) else old(stored)
    {
      ok := !revoked && (reported == 0 || stored.None? || stored.value < reported);
      if ok {
        AcceptedStep(accepted, reported);
        stored := Some(reported);
        accepted := accepted + [reported];
      }
    }
  }

  function Last(history: seq<nat>): Option<nat> {
    if history == [] then None else Some(history[|history| - 1])
  }

  /** Histories the guard can produce: each report passed it. */
  ghost predicate Accepted(history: seq<nat>) {
    forall i :: 0 <= i < |history| ==> Accepts(Last(history[..i]), history[i])
  }

  lemma AcceptedStep(history: seq<nat>, reported: nat)
    requires Accepted(history) && Accepts(Last(history), reported)
    ensures Accepted(history + [reported])
  {
    var h := history + [reported];
    forall i | 0 <= i < |h|
      ensures Accepts(Last(h[..i]), h[i])
    {
      assert h[..i] == if i < |history| then history[..i] else history;
    }
  }

  ghost predicate NoZero(history: seq<nat>, lo: nat, hi: nat)
    requires hi <= |history|
  {
    forall k :: lo <= k < hi ==> history[k] != 0
  }

  /** Between reports of zero the accepted counters strictly increase. */
  lemma {:induction false} IncreasesBetweenZeros(history: seq<nat>, i: nat, j: nat)
    requires Accepted(history) && i < j < |history| && NoZero(history, i, j + 1)
    ensures history[i] < history[j]
    decreases j
  {
    assert Accepts(Last(history[..j]), history[j]);
    assert history[..j][|history[..j]| - 1] == history[j - 1];
    if i < j - 1 {
      IncreasesBetweenZeros(history, i, j - 1);
    }
  }

  /** So a counter value is not accepted a second time before a report of zero. */
  lemma RepeatNeedsZero(history: seq<nat>, i: nat)
    requires Accepted(history) && i < |history| && history[i] > 0
    ensures NoZero(history, i, |history|) ==> !Accepts(Last(history), history[i])
  {
    if NoZero(history, i, |history|) && i < |history| - 1 {
      IncreasesBetweenZeros(history, i, |history| - 1);
    }
  }

  /** After one it is: a report of zero resets the stored counter. */
  lemma ZeroReopens(history: seq<nat>, v: nat)
    requires Accepted(history)
    ensures Accepted(history + [0]) && Accepted(history + [0] + [v])
  {
    AcceptedStep(history, 0);
    assert (history + [0])[|history|] == 0;
    AcceptedStep(history + [0], v);
  }

  /** Section 6.1.1 of Web Authentication Level 2: once either counter is
      nonzero, a report has to exceed the stored one. */
  predicate StandardAccepts(stored: nat, reported: nat) {
    (reported == 0 && stored == 0) || stored < reported
  }

  /** The guard departs from the standard exactly where an authenticator that
      has counted before reports zero. */
  lemma DepartsFromStandard(stored: Option<nat>, reported: nat)
    ensures var count := if stored.None? then 0 else stored.value;
      && (StandardAccepts(count, reported) ==> Accepts(stored, reported))
      && (Accepts(stored, reported) && !StandardAccepts(count, reported) <==> reported == 0 && count > 0)
  {
  }
}
