/**
 * The member's own profile: changing the full name, and changing the
 * password through an ordered chain of checks. Neither handler touches the
 * session store.
 */
module Profile {
  import opened Wrappers
  import opened Errors
  import opened Domain
  import opened MemberRepo
  import opened Auth
  import opened Login

  datatype PasswordChange = PasswordChange(current_password: string, new_password: string, confirm_password: string)

  const Updated := "Password updated successfully!"

  /** The first failed check of `update_password`, in source order; None when all pass. */
  function PasswordCheck(ms: Members, me: Member, form: PasswordChange, h: PasswordHasher): (r: Option<string>)
    ensures form.new_password != form.confirm_password ==> r == Some("New passwords do not match")
    ensures form.new_password == form.confirm_password && |form.new_password| < 8 ==>
              r == Some("Password must be at least 8 characters")
    ensures r.None? <==>
              (form.new_password == form.confirm_password && |form.new_password| >= 8
               && PasswordAccepted(h, form.current_password, StoredHash(ms, me.email)))
    ensures r.Some? && r != Some("New passwords do not match") && r != Some("Password must be at least 8 characters") ==>
              r == Some("Current password is incorrect")
  {
    if form.new_password != form.confirm_password then Some("New passwords do not match")
    else if |form.new_password| < 8 then Some("Password must be at least 8 characters")
    else if !PasswordAccepted(h, form.current_password, StoredHash(ms, me.email)) then Some("Current password is incorrect")
    else None
  }

  /** `UPDATE members SET password_hash = ?, updated_at = now WHERE id = ?`. */
  function SetPasswordHash(ms: Members, id: Id, hash: string, now: Time): (r: Members)
    ensures |r| == |ms|
    ensures forall i :: 0 <= i < |ms| ==>
              r[i] == if ms[i].id == id then ms[i].(password_hash := Some(hash), updated_at := now) else ms[i]
  {
    UpdateWhere(ms, id, (m: Member) => m.(password_hash := Some(hash), updated_at := now))
  }

  /**
   * `update_password`: a failed check answers with its message and writes
   * nothing; a failed hash computation (`newHash` None) or a failed write
   * answers "Failed to update password"; otherwise the new hash is stored
   * for the caller's row only.
   */
  function UpdatePassword(ms: Members, me: Member, form: PasswordChange, h: PasswordHasher,
                          newHash: Option<string>, writeOk: bool, now: Time)
    : (r: (Members, string))
    ensures PasswordCheck(ms, me, form, h).Some? ==> r == (ms, PasswordCheck(ms, me, form, h).value)
    ensures r.1 == Updated <==> PasswordCheck(ms, me, form, h).None? && newHash.Some? && writeOk
    ensures r.1 != Updated ==> r.0 == ms
    ensures r.1 == Updated ==> r.0 == SetPasswordHash(ms, me.id, newHash.value, now)
  {
    match PasswordCheck(ms, me, form, h)
    case Some(message) => (ms, message)
    case None =>
      if newHash.None? || !writeOk then (ms, "Failed to update password")
      else (SetPasswordHash(ms, me.id, newHash.value, now), Updated)
  }

  /** A password change leaves every field but the hash and updated_at as it was, and other rows alone. */
  lemma PasswordChangeOnlyHash(ms: Members, me: Member, form: PasswordChange, h: PasswordHasher,
                               newHash: Option<string>, writeOk: bool, now: Time, i: nat)
    requires i < |ms|
    ensures var r := UpdatePassword(ms, me, form, h, newHash, writeOk, now).0;
            |r| == |ms| && r[i].(password_hash := ms[i].password_hash, updated_at := ms[i].updated_at) == ms[i]
            && (ms[i].id != me.id ==> r[i] == ms[i])
  {
  }

  /** A member without a stored hash is told the current password is wrong, once the new one is acceptable. */
  lemma MissingHashIsIncorrectPassword(ms: Members, me: Member, form: PasswordChange, h: PasswordHasher)
    requires StoredHash(ms, me.email).None?
    requires form.new_password == form.confirm_password && |form.new_password| >= 8
    ensures PasswordCheck(ms, me, form, h) == Some("Current password is incorrect")
  {
  }

  /** `update_profile`: an update that sets full_name and nothing else. */
  function UpdateProfile(ms: Members, me: Member, fullName: string, now: Time): (r: Result<(Members, Member), AppError>)
    ensures r.Success? <==> FindById(ms, me.id).Some?
    ensures r.Success? ==> r.value.1 == FindById(ms, me.id).value.(full_name := fullName, updated_at := now)
    ensures r.Success? ==> |r.value.0| == |ms| && forall i :: 0 <= i < |ms| ==>
              r.value.0[i] == if ms[i].id == me.id then ms[i].(full_name := fullName, updated_at := now) else ms[i]
  {
    Update(ms, me.id, NoChanges.(full_name := Some(fullName)), now)
  }
}
