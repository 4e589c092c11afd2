/**
 * The server-side session store. Only the hash of a session token is
 * stored; a session is live while its expiry lies strictly after the
 * current time. The store is a sequence of rows in table order.
 */
module Sessions {
  import opened Wrappers
  import opened Domain
  import opened Tokens
  import opened Collections

  datatype Session = Session(
    id: string,
    member_id: Id,
    token_hash: string,
    expires_at: Time,
    created_at: Time,
    last_used_at: Time)

  type Store = seq<Session>


  /** The row matches the hashed token and has not expired at `now`. */
  predicate LiveFor(s: Session, hash: string, now: Time) {
    s.token_hash == hash && s.expires_at > now
  }

  /**
   * `SessionStore::create`: a new row holding the token's hash (never the
   * token itself), with created_at = last_used_at = now.
   */
  function Create(store: Store, id: string, member: Id, token: string, expiresAt: Time, now: Time, sha256: Digest)
    : (r: (Store, Session))
    requires ValidDigest(sha256)
    ensures r.0 == store + [r.1]
    ensures r.1.id == id && r.1.member_id == member && r.1.expires_at == expiresAt
    ensures r.1.token_hash == HashToken(sha256, token) && IsTokenText(r.1.token_hash)
    ensures r.1.created_at == now && r.1.last_used_at == now
  {
    var s := Session(id, member, HashToken(sha256, token), expiresAt, now, now);
    (store + [s], s)
  }

  /** The first row live for the hash, as the `SELECT … WHERE` returns it. */
  function FirstLive(store: Store, hash: string, now: Time): Option<Session> {
    FindFirst(store, (s: Session) => LiveFor(s, hash, now))
  }

  /** `UPDATE sessions SET last_used_at = now WHERE id = ?`. */
  function Touch(store: Store, id: string, now: Time): Store {
    MapWhere(store, (s: Session) => s.id == id, (s: Session) => s.(last_used_at := now))
  }

  /**
   * `find_by_token`: the first live row for the token's hash, returned with
   * last_used_at = now; the stored rows with that id are touched too. When
   * nothing is live for the token the store is unchanged.
   */
  function FindByToken(store: Store, token: string, now: Time, sha256: Digest): (r: (Store, Option<Session>))
    requires ValidDigest(sha256)
    ensures r.1.Some? <==> exists i :: 0 <= i < |store| && LiveFor(store[i], HashToken(sha256, token), now)
    ensures r.1.Some? ==> LiveFor(r.1.value, HashToken(sha256, token), now) && r.1.value.last_used_at == now
    ensures r.1.Some? ==> exists i :: 0 <= i < |store| && store[i].(last_used_at := now) == r.1.value
    ensures r.1.None? ==> r.0 == store
    ensures r.1.Some? ==> |r.0| == |store| && forall i :: 0 <= i < |store| ==>
              r.0[i] == if store[i].id == r.1.value.id then store[i].(last_used_at := now) else store[i]
  {
    match FirstLive(store, HashToken(sha256, token), now)
    case None => (store, None)
    case Some(s) => (Touch(store, s.id, now), Some(s.(last_used_at := now)))
  }

  /** A session whose expiry equals `now` is already gone for lookups. */
  lemma ExpiringNowNotFound(s: Session, token: string, now: Time, sha256: Digest)
    requires ValidDigest(sha256)
    requires s.token_hash == HashToken(sha256, token) && s.expires_at == now
    ensures FindByToken([s], token, now, sha256).1 == None
  {
  }

  /** `delete_by_token`: removes exactly the rows holding the token's hash. */
  function DeleteByToken(store: Store, token: string, sha256: Digest): (r: Store)
    requires ValidDigest(sha256)
    ensures forall s :: s in r <==> s in store && s.token_hash != HashToken(sha256, token)
  {
    var h := HashToken(sha256, token);
    Filter(store, (s: Session) => s.token_hash != h)
  }

  /** Deleting a token nobody holds changes nothing; deleting twice is deleting once. */
  lemma DeleteByTokenIdempotent(store: Store, token: string, sha256: Digest)
    requires ValidDigest(sha256)
    ensures DeleteByToken(DeleteByToken(store, token, sha256), token, sha256) == DeleteByToken(store, token, sha256)
    ensures (forall i :: 0 <= i < |store| ==> store[i].token_hash != HashToken(sha256, token)) ==>
              DeleteByToken(store, token, sha256) == store
  {
    var h := HashToken(sha256, token);
    FilterIdempotent(store, (s: Session) => s.token_hash != h);
    if forall i :: 0 <= i < |store| ==> store[i].token_hash != h {
      FilterAll(store, (s: Session) => s.token_hash != h);
    }
  }

  /** `delete_by_member`: removes exactly that member's rows. */
  function DeleteByMember(store: Store, member: Id): (r: Store)
    ensures forall s :: s in r <==> s in store && s.member_id != member
  {
    Filter(store, (s: Session) => s.member_id != member)
  }

  predicate Expired(s: Session, now: Time) {
    s.expires_at <= now
  }

  /**
   * `cleanup_expired`: removes exactly the rows with expires_at <= now and
   * reports how many it removed.
   */
  function CleanupExpired(store: Store, now: Time): (r: (Store, nat))
    ensures forall s :: s in r.0 <==> s in store && !Expired(s, now)
    ensures r.1 == Count(store, (s: Session) => Expired(s, now))
    ensures |r.0| + r.1 == |store|
  {
    var live := (s: Session) => !Expired(s, now);
    var kept := Filter(store, live);
    FilterCount(store, live);
    CountComplement(store, (s: Session) => Expired(s, now), live);
    (kept, |store| - |kept|)
  }

  /**
   * Cleanup never removes a session a lookup would find at the same
   * instant: the lookup gives the same answer before and after.
   */
  lemma {:induction false} CleanupKeepsLive(store: Store, hash: string, now: Time)
    ensures FirstLive(CleanupExpired(store, now).0, hash, now) == FirstLive(store, hash, now)
  {
    if |store| > 0 {
      var p := (s: Session) => !Expired(s, now);
      CleanupKeepsLive(store[1..], hash, now);
      assert CleanupExpired(store[1..], now).0 == Filter(store[1..], p);
      if p(store[0]) {
        assert Filter(store, p) == [store[0]] + Filter(store[1..], p);
        assert ([store[0]] + Filter(store[1..], p))[1..] == Filter(store[1..], p);
      }
    }
  }

  /** Consequently `find_by_token` after `cleanup_expired` returns what it would have returned. */
  lemma CleanupThenFind(store: Store, token: string, now: Time, sha256: Digest)
    requires ValidDigest(sha256)
    ensures FindByToken(CleanupExpired(store, now).0, token, now, sha256).1 == FindByToken(store, token, now, sha256).1
  {
    CleanupKeepsLive(store, HashToken(sha256, token), now);
  }

  /**
   * Right after `create`, the token finds a live session of that member with
   * that expiry, provided the expiry lies in the future and no older live
   * row holds the same hash.
   */
  lemma CreateThenFind(store: Store, id: string, member: Id, token: string, expiresAt: Time, now: Time, sha256: Digest)
    requires ValidDigest(sha256) && expiresAt > now
    requires forall i :: 0 <= i < |store| ==> !LiveFor(store[i], HashToken(sha256, token), now)
    ensures var (store', s) := Create(store, id, member, token, expiresAt, now, sha256);
            FindByToken(store', token, now, sha256).1 == Some(s)
  {
    var (store', s) := Create(store, id, member, token, expiresAt, now, sha256);
    FindFirstAppend(store, s, (x: Session) => LiveFor(x, HashToken(sha256, token), now));
  }
}
