/**
 * CSRF tokens: at most one token per session, stored as a hash keyed by the
 * session id. Generating a token replaces the one stored for that session.
 */
module Csrf {
  import opened Tokens
  import opened Domain
  import Sessions

  /** session id -> hash of the session's current CSRF token. */
  type CsrfStore = map<string, string>


  /**
   * `generate_token`: a fresh token from 32 random bytes; its hash replaces
   * whatever was stored for the session (the upsert).
   */
  function Generate(store: CsrfStore, session: string, random: seq<Byte>, sha256: Digest): (r: (CsrfStore, string))
    requires |random| == 32 && ValidDigest(sha256)
    ensures IsTokenText(r.1)
    ensures r.0.Keys == store.Keys + {session}
    ensures r.0[session] == HashToken(sha256, r.1)
    ensures forall s :: s in store && s != session ==> r.0[s] == store[s]
  {
    var token := GenerateToken(random);
    (store[session := HashToken(sha256, token)], token)
  }

  /** `validate_token`: a row exists for the session holding the token's hash. */
  function Validate(store: CsrfStore, session: string, token: string, sha256: Digest): (ok: bool)
    requires ValidDigest(sha256)
    ensures session !in store ==> !ok
    ensures ok ==> IsTokenText(store[session])
  {
    session in store && store[session] == HashToken(sha256, token)
  }

  /** `delete_token`: removes the session's row, if any. */
  function Delete(store: CsrfStore, session: string): (r: CsrfStore)
    ensures r.Keys == store.Keys - {session}
    ensures forall s :: s in r ==> r[s] == store[s]
  {
    store - {session}
  }

  /** Whether some stored session row has the id. */
  predicate HasRow(sessions: Sessions.Store, id: string) {
    exists i :: 0 <= i < |sessions| && sessions[i].id == id
  }

  /** The ids of the stored session rows, expired or not. */
  function SessionIds(sessions: Sessions.Store): (ids: set<string>)
    ensures forall id :: id in ids <==> HasRow(sessions, id)
  {
    set i | 0 <= i < |sessions| :: sessions[i].id
  }

  /**
   * `cleanup_orphaned`: drops exactly the tokens whose session id is not
   * the id of a stored session row (`NOT IN (SELECT id FROM sessions)`)
   * and reports how many were dropped.
   */
  function CleanupOrphaned(store: CsrfStore, sessions: Sessions.Store): (r: (CsrfStore, nat))
    ensures forall s :: s in r.0 <==> s in store && HasRow(sessions, s)
    ensures forall s :: s in r.0 ==> r.0[s] == store[s]
    ensures r.1 == |store.Keys - SessionIds(sessions)|
  {
    var ids := SessionIds(sessions);
    var kept := map s | s in store && s in ids :: store[s];
    (kept, |store.Keys - ids|)
  }

  /** The number cleanup reports is the number of rows it removed. */
  lemma CleanupCount(store: CsrfStore, sessions: Sessions.Store)
    ensures |CleanupOrphaned(store, sessions).0.Keys| + CleanupOrphaned(store, sessions).1 == |store.Keys|
  {
    var k, ids := store.Keys, SessionIds(sessions);
    assert CleanupOrphaned(store, sessions).0.Keys == k * ids;
    assert k == (k * ids) + (k - ids);
    assert (k * ids) * (k - ids) == {};
  }

  /**
   * A token outlives its session's expiry until the session sweep removes
   * the row: run after `cleanup_expired`, cleanup keeps exactly the tokens
   * of sessions that have not expired.
   */
  lemma CleanupAfterSessionSweep(store: CsrfStore, sessions: Sessions.Store, now: Time, s: string)
    ensures s in CleanupOrphaned(store, Sessions.CleanupExpired(sessions, now).0).0
            <==> s in store && exists i :: 0 <= i < |sessions| && sessions[i].id == s && !Sessions.Expired(sessions[i], now)
  {
    var swept := Sessions.CleanupExpired(sessions, now).0;
    if HasRow(swept, s) {
      var j :| 0 <= j < |swept| && swept[j].id == s;
      assert swept[j] in swept;
      var i :| 0 <= i < |sessions| && sessions[i] == swept[j];
    }
    if i :| 0 <= i < |sessions| && sessions[i].id == s && !Sessions.Expired(sessions[i], now) {
      assert sessions[i] in sessions;
      var j :| 0 <= j < |swept| && swept[j] == sessions[i];
      assert HasRow(swept, s);
    }
  }

  /** A token validates for the session it was just generated for. */
  lemma ValidateAfterGenerate(store: CsrfStore, session: string, random: seq<Byte>, sha256: Digest)
    requires |random| == 32 && ValidDigest(sha256)
    ensures var (store', token) := Generate(store, session, random, sha256);
            Validate(store', session, token, sha256)
  {
  }

  /**
   * Validation holds exactly when the stored hash for the session is the
   * token's hash: with an injective digest, only the latest token of a
   * session validates, and a new token makes every earlier one fail.
   */
  lemma GenerateReplaces(store: CsrfStore, session: string, random: seq<Byte>, earlier: string, sha256: Digest)
    requires |random| == 32 && ValidDigest(sha256)
    requires HashToken(sha256, earlier) != HashToken(sha256, GenerateToken(random))
    ensures !Validate(Generate(store, session, random, sha256).0, session, earlier, sha256)
  {
  }

  /** Generating a token for one session does not change validation for any other. */
  lemma GenerateIsolated(store: CsrfStore, session: string, other: string, token: string, random: seq<Byte>, sha256: Digest)
    requires |random| == 32 && ValidDigest(sha256) && other != session
    ensures Validate(Generate(store, session, random, sha256).0, other, token, sha256)
            == Validate(store, other, token, sha256)
  {
  }

  /** After deletion nothing validates for the session, and deleting again changes nothing. */
  lemma DeleteInvalidates(store: CsrfStore, session: string, token: string, sha256: Digest)
    requires ValidDigest(sha256)
    ensures !Validate(Delete(store, session), session, token, sha256)
    ensures Delete(Delete(store, session), session) == Delete(store, session)
  {
  }
}
