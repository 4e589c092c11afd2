/**
 * The JSON settings endpoints: the three reads replace the value of every
 * sensitive setting with "[REDACTED]"; a single update answers with the
 * stored setting; a batch update applies its updates in order, skips the
 * ones that fail and answers with the ones that succeeded.
 */
module SettingsApi {
  import opened Wrappers
  import opened Errors
  import opened Domain
  import opened Collections
  import opened Settings
  import opened SettingsService

  // ---------------------------------------------------------------------------
  // Redaction
  // ---------------------------------------------------------------------------

  /** A sensitive setting as the API shows it: everything but the value. */
  function Redact(s: AppSetting): (r: AppSetting)
    ensures r.(value := s.value) == s
    ensures s.is_sensitive ==> r.value == Redacted
    ensures !s.is_sensitive ==> r == s
  {
    if s.is_sensitive then s.(value := Redacted) else s
  }

  function RedactAll(ss: seq<AppSetting>): (r: seq<AppSetting>)
    ensures |r| == |ss| && forall k :: 0 <= k < |ss| ==> r[k] == Redact(ss[k])
  {
    seq(|ss|, k requires 0 <= k < |ss| => Redact(ss[k]))
  }

  /** No value of a sensitive setting appears among the shown settings. */
  predicate ShowsNoSecret(ss: seq<AppSetting>) {
    forall k :: 0 <= k < |ss| ==> ss[k].is_sensitive ==> ss[k].value == Redacted
  }

  /**
   * `list_settings`: the categories of `get_all_settings`, same names in the
   * same order, each setting redacted in place.
   */
  function ListSettings(rows: Rows): (r: seq<Category>)
    ensures var gs := AllSettings(rows);
            && |r| == |gs|
            && forall i :: 0 <= i < |r| ==>
                 && r[i].name == gs[i].name
                 && |r[i].settings| == |gs[i].settings|
                 && ShowsNoSecret(r[i].settings)
                 && forall k :: 0 <= k < |r[i].settings| ==>
                      && r[i].settings[k].key == gs[i].settings[k].key
                      && (!gs[i].settings[k].is_sensitive ==> r[i].settings[k] == gs[i].settings[k])
  {
    var gs := AllSettings(rows);
    seq(|gs|, i requires 0 <= i < |gs| => Category(gs[i].name, RedactAll(gs[i].settings)))
  }

  /** Redaction keeps the grouping: every listed category has settings of that category only. */
  lemma ListSettingsWellFormed(rows: Rows)
    ensures forall i :: 0 <= i < |ListSettings(rows)| ==> WellFormed(ListSettings(rows)[i])
  {
    var r, gs := ListSettings(rows), AllSettings(rows);
    forall i | 0 <= i < |r|
      ensures WellFormed(r[i])
    {
      assert WellFormed(gs[i]);
      forall k | 0 <= k < |r[i].settings|
        ensures r[i].settings[k].category == r[i].name
      {
        assert r[i].settings[k] == Redact(gs[i].settings[k]);
      }
    }
  }

  /** `get_category`: the category's settings ordered by key, redacted. */
  function GetCategory(rows: Rows, category: string): (r: seq<AppSetting>)
    ensures ShowsNoSecret(r)
    ensures |r| == |ByCategory(rows, category)|
    ensures forall k :: 0 <= k < |r| ==> r[k].category == category && r[k].key == ByCategory(rows, category)[k].key
  {
    RedactAll(ByCategory(rows, category))
  }

  /** `get_setting`: NotFound for an unknown key, else the setting, redacted. */
  function GetOne(rows: Rows, key: string): (r: Result<AppSetting, AppError>)
    ensures r.Failure? <==> FindRow(rows, key).None?
    ensures r.Failure? ==> r.error == SettingNotFound(key)
    ensures r.Success? ==> r.value.key == key && ShowsNoSecret([r.value])
    ensures r.Success? && !r.value.is_sensitive ==> r.value == GetSetting(rows, key).value
  {
    match GetSetting(rows, key)
    case Failure(e) => Failure(e)
    case Success(s) => Success(Redact(s))
  }

  // ---------------------------------------------------------------------------
  // Batch update
  // ---------------------------------------------------------------------------

  datatype SettingUpdate = SettingUpdate(key: string, value: string)

  /** The store, the audit trail and the answered settings as a batch proceeds. */
  datatype BatchState = BatchState(rows: Rows, audit: seq<AuditEntry>, updated: seq<AppSetting>)

  /** One update of a batch: a success is answered, a failure is only logged. */
  function Step(st: BatchState, u: SettingUpdate, reason: Option<string>, changedBy: Id, auditId: Id, now: Time)
    : (r: BatchState)
    ensures FindRow(st.rows, u.key).None? ==> r == st
    ensures FindRow(st.rows, u.key).Some? ==>
              && |r.updated| == |st.updated| + 1
              && r.updated[..|st.updated|] == st.updated
              && r.updated[|st.updated|].key == u.key && r.updated[|st.updated|].value == u.value
              && |r.audit| == |st.audit| + 1
              && r.audit[..|st.audit|] == st.audit
              && r.audit[|st.audit|].reason == reason && r.audit[|st.audit|].new_value == u.value
    ensures |r.rows| == |st.rows| && forall i :: 0 <= i < |st.rows| ==> r.rows[i].key == st.rows[i].key
  {
    match UpdateSetting(st.rows, st.audit, u.key, UpdateSettingRequest(u.value, reason), changedBy, auditId, now)
    case Failure(_) => st
    case Success((rows', audit', s)) => BatchState(rows', audit', st.updated + [s])
  }

  /** The batch as a fold: each update applied to the state the previous ones left. */
  function Batch(st: BatchState, updates: seq<SettingUpdate>, reason: Option<string>, changedBy: Id,
                 auditIds: seq<Id>, now: Time): BatchState
    requires |auditIds| == |updates|
    decreases |updates|
  {
    if |updates| == 0 then st
    else Batch(Step(st, updates[0], reason, changedBy, auditIds[0], now), updates[1..], reason, changedBy,
               auditIds[1..], now)
  }

  /** The update names a key the store holds. */
  function KeyPresent(rows: Rows): SettingUpdate -> bool {
    (u: SettingUpdate) => FindRow(rows, u.key).Some?
  }

  /** Stores with the same keys, position by position, hold the same keys. */
  lemma SameKeysSamePresence(rows: Rows, rows': Rows, key: string)
    requires |rows'| == |rows| && forall i :: 0 <= i < |rows| ==> rows'[i].key == rows[i].key
    ensures FindRow(rows', key).Some? <==> FindRow(rows, key).Some?
  {
    if FindRow(rows, key).Some? {
      var i :| 0 <= i < |rows| && rows[i].key == key;
      assert rows'[i].key == key;
    }
  }

  /**
   * What a batch has done after the updates `done`: one answered setting and
   * one audit row (with the batch's reason) per update whose key exists,
   * each answered setting carrying the key and value of one of the updates,
   * and the store's keys untouched.
   */
  predicate Progress(st: BatchState, rows: Rows, audit: seq<AuditEntry>, reason: Option<string>,
                     done: seq<SettingUpdate>) {
    && CountKept(st, rows, done)
    && AuditKept(st, audit, reason)
    && AnswersKept(st, done)
    && KeysKept(st, rows)
  }

  /** One answer per update whose key is present. */
  predicate CountKept(st: BatchState, rows: Rows, done: seq<SettingUpdate>) {
    |st.updated| == Count(done, KeyPresent(rows))
  }

  /** The log grew by one entry per answer, each carrying the batch's reason. */
  predicate AuditKept(st: BatchState, audit: seq<AuditEntry>, reason: Option<string>) {
    && |st.audit| == |audit| + |st.updated| && st.audit[..|audit|] == audit
    && (forall k :: |audit| <= k < |st.audit| ==> st.audit[k].reason == reason)
  }

  /** Every answer carries the key and value of an update. */
  predicate AnswersKept(st: BatchState, done: seq<SettingUpdate>) {
    forall j :: 0 <= j < |st.updated| ==>
      exists i :: 0 <= i < |done| && st.updated[j].key == done[i].key && st.updated[j].value == done[i].value
  }

  /** The store holds the same keys in the same places. */
  predicate KeysKept(st: BatchState, rows: Rows) {
    |st.rows| == |rows| && (forall r :: 0 <= r < |rows| ==> st.rows[r].key == rows[r].key)
  }

  lemma StepCount(st: BatchState, rows: Rows, done: seq<SettingUpdate>, u: SettingUpdate, next: BatchState)
    requires CountKept(st, rows, done) && KeysKept(st, rows)
    requires FindRow(st.rows, u.key).None? ==> next.updated == st.updated
    requires FindRow(st.rows, u.key).Some? ==> |next.updated| == |st.updated| + 1
    ensures CountKept(next, rows, done + [u])
  {
    SameKeysSamePresence(rows, st.rows, u.key);
    CountConcat(done, [u], KeyPresent(rows));
  }

  lemma StepAudit(st: BatchState, audit: seq<AuditEntry>, reason: Option<string>, grew: bool, next: BatchState)
    requires AuditKept(st, audit, reason)
    requires !grew ==> next.audit == st.audit && next.updated == st.updated
    requires grew ==> && |next.updated| == |st.updated| + 1
                      && |next.audit| == |st.audit| + 1
                      && next.audit[..|st.audit|] == st.audit
                      && next.audit[|st.audit|].reason == reason
    ensures AuditKept(next, audit, reason)
  {
    if grew {
      forall k | |audit| <= k < |next.audit|
        ensures next.audit[k].reason == reason
      {
        if k < |st.audit| {
          assert next.audit[k] == next.audit[..|st.audit|][k];
        }
      }
      assert next.audit[..|audit|] == next.audit[..|st.audit|][..|audit|];
    }
  }

  lemma StepAnswers(st: BatchState, done: seq<SettingUpdate>, u: SettingUpdate, grew: bool, next: BatchState)
    requires AnswersKept(st, done)
    requires !grew ==> next.updated == st.updated
    requires grew ==> && |next.updated| == |st.updated| + 1
                      && next.updated[..|st.updated|] == st.updated
                      && next.updated[|st.updated|].key == u.key && next.updated[|st.updated|].value == u.value
    ensures AnswersKept(next, done + [u])
  {
    var done' := done + [u];
    forall j | 0 <= j < |next.updated|
      ensures exists i :: 0 <= i < |done'| && next.updated[j].key == done'[i].key && next.updated[j].value == done'[i].value
    {
      if j < |st.updated| {
        assert next.updated[j] == st.updated[j] by {
          if grew {
            assert next.updated[j] == next.updated[..|st.updated|][j];
          }
        }
        var i :| 0 <= i < |done| && st.updated[j].key == done[i].key && st.updated[j].value == done[i].value;
        assert done'[i] == done[i];
      } else {
        assert done'[|done|] == u;
      }
    }
  }

  lemma StepProgress(st: BatchState, rows: Rows, audit: seq<AuditEntry>, reason: Option<string>,
                     done: seq<SettingUpdate>, u: SettingUpdate, changedBy: Id, auditId: Id, now: Time)
    requires Progress(st, rows, audit, reason, done)
    ensures Progress(Step(st, u, reason, changedBy, auditId, now), rows, audit, reason, done + [u])
  {
    var next := Step(st, u, reason, changedBy, auditId, now);
    var grew := FindRow(st.rows, u.key).Some?;
    StepCount(st, rows, done, u, next);
    StepAudit(st, audit, reason, grew, next);
    StepAnswers(st, done, u, grew, next);
  }

  /** `StepProgress` at position `i` of a batch. */
  lemma StepProgressAt(st: BatchState, rows: Rows, audit: seq<AuditEntry>, reason: Option<string>,
                       updates: seq<SettingUpdate>, i: nat, changedBy: Id, auditId: Id, now: Time)
    requires i < |updates| && Progress(st, rows, audit, reason, updates[..i])
    ensures Progress(Step(st, updates[i], reason, changedBy, auditId, now), rows, audit, reason, updates[..i + 1])
  {
    assert updates[..i] + [updates[i]] == updates[..i + 1];
    StepProgress(st, rows, audit, reason, updates[..i], updates[i], changedBy, auditId, now);
  }

  /** The fold from position `i` is one step and then the fold from `i + 1`. */
  lemma BatchUnfold(st: BatchState, updates: seq<SettingUpdate>, reason: Option<string>, changedBy: Id,
                    auditIds: seq<Id>, now: Time, i: nat)
    requires |auditIds| == |updates| && i < |updates|
    ensures Batch(st, updates[i..], reason, changedBy, auditIds[i..], now)
            == Batch(Step(st, updates[i], reason, changedBy, auditIds[i], now), updates[i + 1..], reason, changedBy,
                     auditIds[i + 1..], now)
  {
    assert updates[i..][0] == updates[i] && updates[i..][1..] == updates[i + 1..];
    assert auditIds[i..][0] == auditIds[i] && auditIds[i..][1..] == auditIds[i + 1..];
  }

  /**
   * `batch_update`: every update carries the batch's reason; the updates
   * are applied in order; one whose key is unknown is skipped; the answer
   * (always 200) lists the settings that were updated, in order.
   */
  method BatchUpdate(rows: Rows, audit: seq<AuditEntry>, updates: seq<SettingUpdate>, reason: Option<string>,
                     changedBy: Id, auditIds: seq<Id>, now: Time)
    returns (rows': Rows, audit': seq<AuditEntry>, updated: seq<AppSetting>)
    requires |auditIds| == |updates|
    ensures BatchState(rows', audit', updated) == Batch(BatchState(rows, audit, []), updates, reason, changedBy, auditIds, now)
    ensures |updated| == Count(updates, KeyPresent(rows))
    ensures |audit'| == |audit| + |updated| && audit'[..|audit|] == audit
    ensures forall k :: |audit| <= k < |audit'| ==> audit'[k].reason == reason
    ensures forall j :: 0 <= j < |updated| ==>
              exists i :: 0 <= i < |updates| && updated[j].key == updates[i].key && updated[j].value == updates[i].value
    ensures |rows'| == |rows| && forall i :: 0 <= i < |rows| ==> rows'[i].key == rows[i].key
  {
    var st := RunBatch(rows, audit, updates, reason, changedBy, auditIds, now);
    rows', audit', updated := st.rows, st.audit, st.updated;
  }

  /** The loop of `batch_update`: the fold, keeping `Progress` over the updates applied so far. */
  method RunBatch(rows: Rows, audit: seq<AuditEntry>, updates: seq<SettingUpdate>, reason: Option<string>,
                  changedBy: Id, auditIds: seq<Id>, now: Time)
    returns (st: BatchState)
    requires |auditIds| == |updates|
    ensures st == Batch(BatchState(rows, audit, []), updates, reason, changedBy, auditIds, now)
    ensures Progress(st, rows, audit, reason, updates)
  {
    st := BatchState(rows, audit, []);
    var i := 0;
    while i < |updates|
      invariant 0 <= i <= |updates|
      invariant Batch(st, updates[i..], reason, changedBy, auditIds[i..], now)
                == Batch(BatchState(rows, audit, []), updates, reason, changedBy, auditIds, now)
      invariant Progress(st, rows, audit, reason, updates[..i])
    {
      BatchUnfold(st, updates, reason, changedBy, auditIds, now, i);
      StepProgressAt(st, rows, audit, reason, updates, i, changedBy, auditIds[i], now);
      st := Step(st, updates[i], reason, changedBy, auditIds[i], now);
      i := i + 1;
    }
    assert updates[..i] == updates;
  }


  /** A batch of updates to keys the store lacks changes nothing and answers an empty list. */
  lemma {:induction false} BatchOfUnknownKeys(st: BatchState, updates: seq<SettingUpdate>, reason: Option<string>,
                                              changedBy: Id, auditIds: seq<Id>, now: Time)
    requires |auditIds| == |updates|
    requires forall i :: 0 <= i < |updates| ==> FindRow(st.rows, updates[i].key).None?
    ensures Batch(st, updates, reason, changedBy, auditIds, now) == st
    decreases |updates|
  {
    if |updates| > 0 {
      BatchOfUnknownKeys(st, updates[1..], reason, changedBy, auditIds[1..], now);
    }
  }
}
