/**
 * The settings service over the `app_settings` table: lookups by key and
 * by category, the grouping of all settings into categories, updates with
 * their audit rows, and the typed reads `get_bool` and `get_number`.
 */
module SettingsService {
  import opened Wrappers
  import opened Errors
  import opened Domain
  import opened Collections
  import opened Ordering
  import opened Settings

  /** A stored row: the type column is free text, read back through `ParseSettingType`. */
  datatype SettingRow = SettingRow(
    key: string,
    value: string,
    value_type: string,
    category: string,
    description: Option<string>,
    is_sensitive: bool,
    updated_by: Option<Id>,
    updated_at: Time)

  type Rows = seq<SettingRow>

  // ---------------------------------------------------------------------------
  // Rows and types
  // ---------------------------------------------------------------------------

  function SettingTypeName(t: SettingType): string {
    match t
    case String => "string"
    case Number => "number"
    case Boolean => "boolean"
    case Json => "json"
  }

  /** `parse_setting_type`: the four lower-case names; anything else is a string setting. */
  function ParseSettingType(s: string): (t: SettingType)
    ensures t == Number <==> s == "number"
    ensures t == Boolean <==> s == "boolean"
    ensures t == Json <==> s == "json"
  {
    if s == "number" then Number
    else if s == "boolean" then Boolean
    else if s == "json" then Json
    else String
  }

  lemma SettingTypeRoundTrip(t: SettingType, s: string)
    ensures ParseSettingType(SettingTypeName(t)) == t
    ensures (forall u: SettingType :: SettingTypeName(u) != s) ==> ParseSettingType(s) == String
  {
    if ParseSettingType(s) != String {
      assert SettingTypeName(ParseSettingType(s)) == s;
    }
  }

  function RowToSetting(r: SettingRow): (s: AppSetting)
    ensures s.key == r.key && s.value == r.value && s.category == r.category
    ensures s.is_sensitive == r.is_sensitive && s.value_type == ParseSettingType(r.value_type)
  {
    AppSetting(r.key, r.value, ParseSettingType(r.value_type), r.category, r.description,
               r.is_sensitive, r.updated_by, r.updated_at)
  }

  function AllRows(rows: Rows): (ss: seq<AppSetting>)
    ensures |ss| == |rows| && forall i :: 0 <= i < |rows| ==> ss[i] == RowToSetting(rows[i])
  {
    seq(|rows|, i requires 0 <= i < |rows| => RowToSetting(rows[i]))
  }

  function HasKey(key: string): SettingRow -> bool {
    (r: SettingRow) => r.key == key
  }

  function FindRow(rows: Rows, key: string): Option<SettingRow> {
    FindFirst(rows, HasKey(key))
  }

  function SettingNotFound(key: string): AppError {
    NotFound("Setting not found: " + key)
  }

  /** `get_setting`: NotFound for a key no row has. */
  function GetSetting(rows: Rows, key: string): (r: Result<AppSetting, AppError>)
    ensures r.Failure? <==> forall i :: 0 <= i < |rows| ==> rows[i].key != key
    ensures r.Failure? ==> r.error == SettingNotFound(key)
    ensures r.Success? ==> r.value.key == key && exists i :: 0 <= i < |rows| && r.value == RowToSetting(rows[i])
  {
    match FindRow(rows, key)
    case None => Failure(SettingNotFound(key))
    case Some(row) => Success(RowToSetting(row))
  }

  // ---------------------------------------------------------------------------
  // By category, and grouped
  // ---------------------------------------------------------------------------

  function KeyOrder(s: AppSetting): seq<int> {
    Codes(s.key)
  }

  function InCategory(category: string): AppSetting -> bool {
    (s: AppSetting) => s.category == category
  }

  /** `get_settings_by_category`: the category's settings, ordered by key. */
  function ByCategory(rows: Rows, category: string): (r: seq<AppSetting>)
    ensures Sorted(r, KeyOrder, false)
    ensures forall s :: s in r <==> s in AllRows(rows) && s.category == category
    ensures multiset(r) == multiset(Filter(AllRows(rows), InCategory(category)))
  {
    var inCategory := Filter(AllRows(rows), InCategory(category));
    SortByMembers(inCategory, KeyOrder, false);
    SortBy(inCategory, KeyOrder, false)
  }

  /** Set-aside marker between category and key: smaller than every character. */
  const Separator: int := -1

  /** `ORDER BY category, key`. */
  function CategoryThenKey(s: AppSetting): seq<int> {
    Codes(s.category) + [Separator] + Codes(s.key)
  }

  function CategoryOrder(s: AppSetting): seq<int> {
    Codes(s.category)
  }

  /** Ordering by category and then key orders by category. */
  lemma {:induction false} SeparatedPrefixOrder(a: seq<int>, b: seq<int>, x: seq<int>, y: seq<int>)
    requires forall i :: 0 <= i < |a| ==> a[i] >= 0
    requires forall i :: 0 <= i < |b| ==> b[i] >= 0
    requires LexCmp(a + [Separator] + x, b + [Separator] + y) <= 0
    ensures LexCmp(a, b) <= 0
  {
    if |a| > 0 && |b| > 0 {
      var l, r := a + [Separator] + x, b + [Separator] + y;
      assert l[0] == a[0] && r[0] == b[0];
      if a[0] == b[0] {
        assert l[1..] == a[1..] + [Separator] + x && r[1..] == b[1..] + [Separator] + y;
        SeparatedPrefixOrder(a[1..], b[1..], x, y);
      }
    }
  }

  lemma SortedByCategory(ss: seq<AppSetting>)
    requires Sorted(ss, CategoryThenKey, false)
    ensures Sorted(ss, CategoryOrder, false)
  {
    forall i | 0 <= i < |ss| - 1
      ensures InOrder(CategoryOrder, false, ss[i], ss[i + 1])
    {
      SortedAt(ss, CategoryThenKey, false, i);
      SeparatedPrefixOrder(Codes(ss[i].category), Codes(ss[i + 1].category), Codes(ss[i].key), Codes(ss[i + 1].key));
    }
  }

  /** `SettingsCategory`: a named run of settings. */
  datatype Category = Category(name: string, settings: seq<AppSetting>)

  function Flatten(gs: seq<Category>): seq<AppSetting> {
    if |gs| == 0 then [] else gs[0].settings + Flatten(gs[1..])
  }

  /** Every group is non-empty and holds settings of its own category only. */
  predicate WellFormed(g: Category) {
    |g.settings| > 0 && forall k :: 0 <= k < |g.settings| ==> g.settings[k].category == g.name
  }

  /**
   * The grouping loop of `get_all_settings`: a setting joins the open group
   * when it has the group's category and opens a new group otherwise.
   */
  function Group(ss: seq<AppSetting>): (gs: seq<Category>)
    ensures Flatten(gs) == ss
    ensures forall i :: 0 <= i < |gs| ==> WellFormed(gs[i])
    ensures forall i :: 0 <= i < |gs| - 1 ==> gs[i].name != gs[i + 1].name
    ensures |ss| > 0 ==> |gs| > 0 && gs[0].name == ss[0].category
  {
    if |ss| == 0 then []
    else
      var rest := Group(ss[1..]);
      if |rest| > 0 && rest[0].name == ss[0].category then
        var merged := Category(ss[0].category, [ss[0]] + rest[0].settings);
        var gs := [merged] + rest[1..];
        assert gs[1..] == rest[1..];
        assert Flatten(rest) == rest[0].settings + Flatten(rest[1..]);
        assert Flatten(gs) == [ss[0]] + rest[0].settings + Flatten(rest[1..]);
        assert [ss[0]] + ss[1..] == ss;
        gs
      else
        var gs := [Category(ss[0].category, [ss[0]])] + rest;
        assert gs[1..] == rest;
        assert [ss[0]] + ss[1..] == ss;
        gs
  }

  /** `a`'s name sorts strictly before `b`'s. */
  predicate NameBefore(a: Category, b: Category) {
    LexCmp(Codes(a.name), Codes(b.name)) < 0
  }

  predicate NamesIncrease(gs: seq<Category>) {
    forall i :: 0 <= i < |gs| - 1 ==> NameBefore(gs[i], gs[i + 1])
  }

  /** When the input is ordered by category, the group names strictly increase. */
  lemma {:induction false} GroupNamesIncrease(ss: seq<AppSetting>)
    requires Sorted(ss, CategoryOrder, false)
    ensures NamesIncrease(Group(ss))
  {
    if |ss| > 1 {
      SortedTail(ss, CategoryOrder, false);
      GroupNamesIncrease(ss[1..]);
      var rest := Group(ss[1..]);
      var gs := Group(ss);
      assert NamesIncrease(rest);
      if !(|rest| > 0 && rest[0].name == ss[0].category) {
        assert gs == [Category(ss[0].category, [ss[0]])] + rest;
        assert rest[0].name == ss[1].category by { assert ss[1..][0] == ss[1]; }
        assert LexCmp(Codes(ss[0].category), Codes(ss[1].category)) <= 0 by {
          SortedAt(ss, CategoryOrder, false, 0);
        }
        CodesInjective(ss[0].category, ss[1].category);
        LexZeroIffEqual(Codes(ss[0].category), Codes(ss[1].category));
        assert NameBefore(gs[0], gs[1]);
        forall i | 0 < i < |gs| - 1
          ensures NameBefore(gs[i], gs[i + 1])
        {
          assert gs[i] == rest[i - 1] && gs[i + 1] == rest[i];
        }
      } else {
        assert gs == [Category(ss[0].category, [ss[0]] + rest[0].settings)] + rest[1..];
        forall i | 0 <= i < |gs| - 1
          ensures NameBefore(gs[i], gs[i + 1])
        {
          assert gs[i + 1] == rest[i + 1];
          assert gs[i].name == rest[i].name;
        }
      }
    }
  }

  lemma CodesInjective(a: string, b: string)
    ensures Codes(a) == Codes(b) ==> a == b
  {
    if Codes(a) == Codes(b) {
      assert |a| == |b|;
      forall i | 0 <= i < |a|
        ensures a[i] == b[i]
      {
        assert Codes(a)[i] == Codes(b)[i];
      }
    }
  }

  /** A strictly increasing chain of names has no repeats. */
  lemma {:induction false} IncreasingNamesDistinct(gs: seq<Category>, i: int, j: int)
    requires NamesIncrease(gs)
    requires 0 <= i < j < |gs|
    ensures NameBefore(gs[i], gs[j])
    decreases j - i
  {
    if j > i + 1 {
      IncreasingNamesDistinct(gs, i + 1, j);
      var a, b, c := Codes(gs[i].name), Codes(gs[i + 1].name), Codes(gs[j].name);
      LexTransitive(a, b, c);
      LexZeroIffEqual(a, c);
      LexAntisymmetric(a, b);
    }
  }

  /**
   * `get_all_settings`: every setting, ordered by category and key, grouped
   * into one category per run.
   */
  function AllSettings(rows: Rows): (gs: seq<Category>)
    ensures multiset(Flatten(gs)) == multiset(AllRows(rows))
    ensures forall i :: 0 <= i < |gs| ==> WellFormed(gs[i])
  {
    Group(SortBy(AllRows(rows), CategoryThenKey, false))
  }

  /** The groups of `get_all_settings` have distinct names, in increasing order. */
  lemma AllSettingsNamesDistinct(rows: Rows, i: int, j: int)
    requires 0 <= i < j < |AllSettings(rows)|
    ensures var gs := AllSettings(rows);
            gs[i].name != gs[j].name && NameBefore(gs[i], gs[j])
  {
    var sorted := SortBy(AllRows(rows), CategoryThenKey, false);
    SortedByCategory(sorted);
    GroupNamesIncrease(sorted);
    assert AllSettings(rows) == Group(sorted);
    IncreasingNamesDistinct(AllSettings(rows), i, j);
    LexZeroIffEqual(Codes(AllSettings(rows)[i].name), Codes(AllSettings(rows)[j].name));
  }

  // ---------------------------------------------------------------------------
  // Updates and the audit trail
  // ---------------------------------------------------------------------------

  datatype UpdateSettingRequest = UpdateSettingRequest(value: string, reason: Option<string>)

  /** A `settings_audit` row. */
  datatype AuditEntry = AuditEntry(id: Id, setting_key: string, old_value: string, new_value: string,
                                   changed_by: Id, reason: Option<string>)

  const Redacted := "[REDACTED]"

  /** The columns the UPDATE writes. */
  function Written(value: string, changedBy: Id, now: Time): SettingRow -> SettingRow {
    (r: SettingRow) => r.(value := value, updated_by := Some(changedBy), updated_at := now)
  }

  /**
   * `update_setting`: NotFound for an unknown key; otherwise the value,
   * updated_by and updated_at of the row change, an audit row records the
   * old value (redacted for a sensitive setting) and the new one, and the
   * row is read back.
   */
  function UpdateSetting(rows: Rows, audit: seq<AuditEntry>, key: string, req: UpdateSettingRequest, changedBy: Id,
                         auditId: Id, now: Time): (r: Result<(Rows, seq<AuditEntry>, AppSetting), AppError>)
    ensures r.Failure? <==> FindRow(rows, key).None?
    ensures r.Failure? ==> r.error == SettingNotFound(key)
    ensures r.Success? ==> var (rows', audit', s) := r.value;
              var old_ := FindRow(rows, key).value;
              && s == RowToSetting(old_).(value := req.value, updated_by := Some(changedBy), updated_at := now)
              && |rows'| == |rows|
              && (forall i :: 0 <= i < |rows| ==>
                    rows'[i] == if rows[i].key == key then Written(req.value, changedBy, now)(rows[i]) else rows[i])
              && audit' == audit + [AuditEntry(auditId, key, if old_.is_sensitive then Redacted else old_.value,
                                               req.value, changedBy, req.reason)]
  {
    match FindRow(rows, key)
    case None => Failure(SettingNotFound(key))
    case Some(current) =>
      var rows' := MapWhere(rows, HasKey(key), Written(req.value, changedBy, now));
      var entry := AuditEntry(auditId, key, if current.is_sensitive then Redacted else current.value,
                              req.value, changedBy, req.reason);
      FindFirstMapWhere(rows, HasKey(key), Written(req.value, changedBy, now));
      Success((rows', audit + [entry], RowToSetting(FindRow(rows', key).value)))
  }

  /** The audit trail never holds the old value of a sensitive setting, but does hold its new value. */
  lemma AuditRedactsOldSensitiveValue(rows: Rows, audit: seq<AuditEntry>, key: string, req: UpdateSettingRequest,
                                      changedBy: Id, auditId: Id, now: Time)
    requires UpdateSetting(rows, audit, key, req, changedBy, auditId, now).Success?
    ensures var entry := Last(UpdateSetting(rows, audit, key, req, changedBy, auditId, now).value.1);
            var old_ := FindRow(rows, key).value;
            && (old_.is_sensitive ==> entry.old_value == Redacted)
            && (!old_.is_sensitive ==> entry.old_value == old_.value)
            && entry.new_value == req.value
  {
  }

  function Last<T>(s: seq<T>): T
    requires |s| > 0
  {
    s[|s| - 1]
  }

  // ---------------------------------------------------------------------------
  // Typed reads
  // ---------------------------------------------------------------------------

  /** `get_bool`: the value must be exactly "true" or "false", else Internal. */
  function GetBool(rows: Rows, key: string): (r: Result<bool, AppError>)
    ensures GetSetting(rows, key).Failure? ==> r == Failure(GetSetting(rows, key).error)
    ensures GetSetting(rows, key).Success? ==>
              r == (match ParseBool(GetSetting(rows, key).value.value)
                    case Some(b) => Success(b)
                    case None => Failure(Internal("Invalid boolean value for " + key)))
  {
    match GetSetting(rows, key)
    case Failure(e) => Failure(e)
    case Success(s) =>
      match ParseBool(s.value)
      case Some(b) => Success(b)
      case None => Failure(Internal("Invalid boolean value for " + key))
  }

  /** `get_number`: the value must parse as a 64-bit integer, else Internal. */
  function GetNumber(rows: Rows, key: string): (r: Result<int, AppError>)
    ensures GetSetting(rows, key).Failure? ==> r == Failure(GetSetting(rows, key).error)
    ensures r.Success? ==> I64Min <= r.value <= I64Max
    ensures GetSetting(rows, key).Success? && ParseInt(GetSetting(rows, key).value.value, I64Min, I64Max).None? ==>
              r == Failure(Internal("Invalid number value for " + key))
    ensures GetSetting(rows, key).Success? && ParseInt(GetSetting(rows, key).value.value, I64Min, I64Max).Some? ==>
              r == Success(ParseInt(GetSetting(rows, key).value.value, I64Min, I64Max).value)
  {
    match GetSetting(rows, key)
    case Failure(e) => Failure(e)
    case Success(s) =>
      match ParseInt(s.value, I64Min, I64Max)
      case Some(n) => Success(n)
      case None => Failure(Internal("Invalid number value for " + key))
  }

  /** Writing a boolean's text and reading it back as a boolean gives the boolean. */
  lemma UpdateThenGetBool(rows: Rows, audit: seq<AuditEntry>, key: string, b: bool, reason: Option<string>,
                          changedBy: Id, auditId: Id, now: Time)
    requires FindRow(rows, key).Some?
    ensures var req := UpdateSettingRequest(if b then "true" else "false", reason);
            var after := UpdateSetting(rows, audit, key, req, changedBy, auditId, now).value.0;
            GetBool(after, key) == Success(b)
  {
    var req := UpdateSettingRequest(if b then "true" else "false", reason);
    FindFirstMapWhere(rows, HasKey(key), Written(req.value, changedBy, now));
  }

  /** Writing a 64-bit integer's text and reading it back as a number gives the integer. */
  lemma UpdateThenGetNumber(rows: Rows, audit: seq<AuditEntry>, key: string, n: int, reason: Option<string>,
                            changedBy: Id, auditId: Id, now: Time)
    requires FindRow(rows, key).Some?
    requires I64Min <= n <= I64Max
    ensures var req := UpdateSettingRequest(IntToString(n), reason);
            var after := UpdateSetting(rows, audit, key, req, changedBy, auditId, now).value.0;
            GetNumber(after, key) == Success(n)
  {
    var req := UpdateSettingRequest(IntToString(n), reason);
    FindFirstMapWhere(rows, HasKey(key), Written(req.value, changedBy, now));
    ParseIntRoundTrip(n, I64Min, I64Max);
  }

  // ---------------------------------------------------------------------------
  // Typed configurations
  // ---------------------------------------------------------------------------

  /**
   * `get_payment_config`: each field is the value of the last payment row
   * with its key, in key order, or the field's default when that row is
   * missing or does not parse.
   */
  function GetPaymentConfig(rows: Rows): (c: PaymentConfig)
    ensures var ss := ByCategory(rows, "payment");
      && c.regular_membership_fee == ResolveInt(LastValue(ss, KeyRegularFee), I64Min, I64Max, 5000)
      && c.student_membership_fee == ResolveInt(LastValue(ss, KeyStudentFee), I64Min, I64Max, 2500)
      && c.corporate_membership_fee == ResolveInt(LastValue(ss, KeyCorporateFee), I64Min, I64Max, 50000)
      && c.lifetime_membership_fee == ResolveInt(LastValue(ss, KeyLifetimeFee), I64Min, I64Max, 100000)
      && c.grace_period_days == ResolveInt(LastValue(ss, KeyGracePeriod), I32Min, I32Max, 30)
      && c.reminder_days_before == ResolveInt(LastValue(ss, KeyReminderDays), I32Min, I32Max, 7)
  {
    PaymentFieldsFromLastValues(ByCategory(rows, "payment"));
    PaymentFromSettings(ByCategory(rows, "payment"))
  }

  /** `get_membership_config`: each field from the last membership row of its key, or its default. */
  function GetMembershipConfig(rows: Rows): (c: MembershipConfig)
    ensures var ss := ByCategory(rows, "membership");
      && c.auto_approve == ResolveBool(LastValue(ss, KeyAutoApprove), false)
      && c.require_payment_for_activation == ResolveBool(LastValue(ss, KeyRequirePayment), true)
      && c.default_duration_months == ResolveInt(LastValue(ss, KeyDefaultDuration), I32Min, I32Max, 12)
  {
    MembershipFieldsFromLastValues(ByCategory(rows, "membership"));
    MembershipFromSettings(ByCategory(rows, "membership"))
  }

  lemma AppendRow(rows: Rows, extra: SettingRow)
    ensures AllRows(rows + [extra]) == AllRows(rows) + [RowToSetting(extra)]
  {
  }

  /** A row outside a category never changes what that category yields. */
  lemma OtherCategoryIgnored(rows: Rows, extra: SettingRow, category: string)
    requires extra.category != category
    ensures ByCategory(rows + [extra], category) == ByCategory(rows, category)
  {
    var p := InCategory(category);
    AppendRow(rows, extra);
    FilterConcat(AllRows(rows), [RowToSetting(extra)], p);
    assert Filter([RowToSetting(extra)], p) == [] by {
      assert !p(RowToSetting(extra));
    }
    assert Filter(AllRows(rows + [extra]), p) == Filter(AllRows(rows), p);
  }

  /** Rows of other categories do not affect the payment or the membership configuration. */
  lemma ConfigsIgnoreOtherCategories(rows: Rows, extra: SettingRow)
    ensures extra.category != "payment" ==> GetPaymentConfig(rows + [extra]) == GetPaymentConfig(rows)
    ensures extra.category != "membership" ==> GetMembershipConfig(rows + [extra]) == GetMembershipConfig(rows)
  {
    if extra.category != "payment" {
      OtherCategoryIgnored(rows, extra, "payment");
    }
    if extra.category != "membership" {
      OtherCategoryIgnored(rows, extra, "membership");
    }
  }
}
