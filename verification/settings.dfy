/**
 * Application settings as stored key/value rows, and the two typed views
 * folded out of them: the payment configuration and the membership
 * configuration. A recognised key sets its field from the parsed value, or
 * back to the field's default when the value does not parse; unrecognised
 * keys are ignored; rows are applied in order, so the last row of a key wins.
 */
module Settings {
  import opened Wrappers
  import opened Text
  import opened Domain

  datatype SettingType = String | Number | Boolean | Json

  datatype AppSetting = AppSetting(
    key: string,
    value: string,
    value_type: SettingType,
    category: string,
    description: Option<string>,
    is_sensitive: bool,
    updated_by: Option<Id>,
    updated_at: Time)

  // ---------------------------------------------------------------------------
  // Rust's integer and boolean `FromStr`
  // ---------------------------------------------------------------------------

  const I64Min: int := -0x8000_0000_0000_0000
  const I64Max: int := 0x7fff_ffff_ffff_ffff

  predicate AllDigits(s: string) {
    forall i :: 0 <= i < |s| ==> IsDigit(s[i])
  }

  /**
   * `str::parse` for a fixed-width signed integer whose range is [lo, hi]:
   * an optional '+' or '-' followed by at least one ASCII digit, with the
   * value inside the range. Anything else (including surrounding whitespace)
   * is an error.
   */
  function ParseInt(s: string, lo: int, hi: int): (r: Option<int>)
    ensures r.Some? ==> lo <= r.value <= hi
    ensures r.Some? ==> |s| > 0 && (IsDigit(s[0]) || s[0] == '+' || s[0] == '-')
  {
    if |s| == 0 then None
    else
      var digits := if s[0] == '-' || s[0] == '+' then s[1..] else s;
      if |digits| == 0 || !AllDigits(digits) then None
      else
        var v := if s[0] == '-' then -(DigitsValue(digits) as int) else DigitsValue(digits);
        if lo <= v <= hi then Some(v) else None
  }

  /** Decimal rendering of an integer, the inverse partner of `ParseInt`. */
  function IntToString(n: int): (r: string)
    ensures |r| > 0
  {
    if n < 0 then "-" + NatToString(-n) else NatToString(n)
  }

  /** Every in-range integer parses back from its rendering; out-of-range ones fail. */
  lemma ParseIntRoundTrip(n: int, lo: int, hi: int)
    ensures ParseInt(IntToString(n), lo, hi) == (if lo <= n <= hi then Some(n) else None)
  {
    var s := IntToString(n);
    if n < 0 {
      NatToStringRoundTrip(-n);
      assert s[0] == '-' && s[1..] == NatToString(-n);
    } else {
      NatToStringRoundTrip(n);
      assert IsDigit(s[0]);
    }
  }

  /** `bool::from_str`: exactly "true" or "false". */
  function ParseBool(s: string): (r: Option<bool>)
    ensures r.Some? <==> s == "true" || s == "false"
    ensures r == Some(true) <==> s == "true"
  {
    if s == "true" then Some(true) else if s == "false" then Some(false) else None
  }

  /** The field value a key yields: its default when absent or unparsable. */
  function ResolveInt(v: Option<string>, lo: int, hi: int, default: int): int {
    match v
    case None => default
    case Some(text) => ParseInt(text, lo, hi).GetOr(default)
  }

  function ResolveBool(v: Option<string>, default: bool): bool {
    match v
    case None => default
    case Some(text) => ParseBool(text).GetOr(default)
  }

  /** The value of the last row with the given key, if any. */
  function LastValue(ss: seq<AppSetting>, key: string): Option<string>
    decreases |ss|
  {
    if |ss| == 0 then None
    else if ss[|ss| - 1].key == key then Some(ss[|ss| - 1].value)
    else LastValue(ss[..|ss| - 1], key)
  }

  /**
   * `LastValue` finds nothing exactly when no row has the key, and otherwise
   * the value of a row with that key that no later row of the key follows.
   */
  lemma {:induction false} LastValueIsLast(ss: seq<AppSetting>, key: string)
    ensures LastValue(ss, key).None? <==> forall i :: 0 <= i < |ss| ==> ss[i].key != key
    ensures LastValue(ss, key).Some? ==>
              exists i :: 0 <= i < |ss| && ss[i].key == key && ss[i].value == LastValue(ss, key).value
                          && forall j :: i < j < |ss| ==> ss[j].key != key
    decreases |ss|
  {
    if |ss| > 0 {
      var n := |ss| - 1;
      if ss[n].key == key {
        assert LastValue(ss, key) == Some(ss[n].value);
      } else {
        var prefix := ss[..n];
        LastValueIsLast(prefix, key);
        assert LastValue(ss, key) == LastValue(prefix, key);
        if LastValue(prefix, key).Some? {
          var i :| 0 <= i < |prefix| && prefix[i].key == key && prefix[i].value == LastValue(prefix, key).value
                   && forall j :: i < j < |prefix| ==> prefix[j].key != key;
          assert ss[i] == prefix[i];
        } else {
          assert forall i :: 0 <= i < n ==> ss[i] == prefix[i];
        }
      }
    }
  }

  // ---------------------------------------------------------------------------
  // PaymentConfig
  // ---------------------------------------------------------------------------

  datatype PaymentConfig = PaymentConfig(
    regular_membership_fee: int,
    student_membership_fee: int,
    corporate_membership_fee: int,
    lifetime_membership_fee: int,
    grace_period_days: int,
    reminder_days_before: int)

  const KeyRegularFee := "payment.regular_membership_fee"
  const KeyStudentFee := "payment.student_membership_fee"
  const KeyCorporateFee := "payment.corporate_membership_fee"
  const KeyLifetimeFee := "payment.lifetime_membership_fee"
  const KeyGracePeriod := "payment.grace_period_days"
  const KeyReminderDays := "payment.reminder_days_before"

  const DefaultPaymentConfig := PaymentConfig(5000, 2500, 50000, 100000, 30, 7)

  /** The six payment keys are pairwise different. */
  lemma PaymentKeysDistinct()
    ensures KeyRegularFee !in {KeyStudentFee, KeyCorporateFee, KeyLifetimeFee, KeyGracePeriod, KeyReminderDays}
    ensures KeyStudentFee !in {KeyCorporateFee, KeyLifetimeFee, KeyGracePeriod, KeyReminderDays}
    ensures KeyCorporateFee !in {KeyLifetimeFee, KeyGracePeriod, KeyReminderDays}
    ensures KeyLifetimeFee !in {KeyGracePeriod, KeyReminderDays}
    ensures KeyGracePeriod != KeyReminderDays
  {
    assert KeyRegularFee[8] == 'r' && KeyRegularFee[10] == 'g';
    assert KeyStudentFee[8] == 's';
    assert KeyCorporateFee[8] == 'c';
    assert KeyLifetimeFee[8] == 'l';
    assert KeyGracePeriod[8] == 'g';
    assert KeyReminderDays[8] == 'r' && KeyReminderDays[10] == 'm';
  }

  /** One iteration of the `from_settings` loop. */
  function ApplyPayment(c: PaymentConfig, s: AppSetting): PaymentConfig {
    if s.key == KeyRegularFee then c.(regular_membership_fee := ParseInt(s.value, I64Min, I64Max).GetOr(5000))
    else if s.key == KeyStudentFee then c.(student_membership_fee := ParseInt(s.value, I64Min, I64Max).GetOr(2500))
    else if s.key == KeyCorporateFee then c.(corporate_membership_fee := ParseInt(s.value, I64Min, I64Max).GetOr(50000))
    else if s.key == KeyLifetimeFee then c.(lifetime_membership_fee := ParseInt(s.value, I64Min, I64Max).GetOr(100000))
    else if s.key == KeyGracePeriod then c.(grace_period_days := ParseInt(s.value, I32Min, I32Max).GetOr(30))
    else if s.key == KeyReminderDays then c.(reminder_days_before := ParseInt(s.value, I32Min, I32Max).GetOr(7))
    else c
  }

  /** `PaymentConfig::from_settings`: the defaults, then every row in order. */
  function PaymentFromSettings(ss: seq<AppSetting>): PaymentConfig
    decreases |ss|
  {
    if |ss| == 0 then DefaultPaymentConfig
    else ApplyPayment(PaymentFromSettings(ss[..|ss| - 1]), ss[|ss| - 1])
  }

  /**
   * Each field of the folded payment configuration is decided by the last
   * row of its own key alone: absent or unparsable means the default.
   */
  lemma {:induction false} PaymentFieldsFromLastValues(ss: seq<AppSetting>)
    ensures var c := PaymentFromSettings(ss);
      && c.regular_membership_fee == ResolveInt(LastValue(ss, KeyRegularFee), I64Min, I64Max, 5000)
      && c.student_membership_fee == ResolveInt(LastValue(ss, KeyStudentFee), I64Min, I64Max, 2500)
      && c.corporate_membership_fee == ResolveInt(LastValue(ss, KeyCorporateFee), I64Min, I64Max, 50000)
      && c.lifetime_membership_fee == ResolveInt(LastValue(ss, KeyLifetimeFee), I64Min, I64Max, 100000)
      && c.grace_period_days == ResolveInt(LastValue(ss, KeyGracePeriod), I32Min, I32Max, 30)
      && c.reminder_days_before == ResolveInt(LastValue(ss, KeyReminderDays), I32Min, I32Max, 7)
    decreases |ss|
  {
    if |ss| > 0 {
      var prefix, last := ss[..|ss| - 1], ss[|ss| - 1];
      PaymentKeysDistinct();
      PaymentFieldsFromLastValues(prefix);
      var c := PaymentFromSettings(prefix);
      assert PaymentFromSettings(ss) == ApplyPayment(c, last);
      if last.key == KeyRegularFee {
        assert LastValue(ss, KeyRegularFee) == Some(last.value);
      } else if last.key == KeyStudentFee {
        assert LastValue(ss, KeyStudentFee) == Some(last.value);
      } else if last.key == KeyCorporateFee {
        assert LastValue(ss, KeyCorporateFee) == Some(last.value);
      } else if last.key == KeyLifetimeFee {
        assert LastValue(ss, KeyLifetimeFee) == Some(last.value);
      } else if last.key == KeyGracePeriod {
        assert LastValue(ss, KeyGracePeriod) == Some(last.value);
      } else if last.key == KeyReminderDays {
        assert LastValue(ss, KeyReminderDays) == Some(last.value);
      } else {
        assert PaymentFromSettings(ss) == c;
      }
    }
  }

  /** With no rows at all the configuration is the documented defaults. */
  lemma PaymentDefaults()
    ensures PaymentFromSettings([]) == PaymentConfig(5000, 2500, 50000, 100000, 30, 7)
  {
  }

  /** A row whose key is not one of the six payment keys changes nothing. */
  lemma PaymentIgnoresUnknownKey(ss: seq<AppSetting>, s: AppSetting)
    requires s.key !in {KeyRegularFee, KeyStudentFee, KeyCorporateFee, KeyLifetimeFee, KeyGracePeriod, KeyReminderDays}
    ensures PaymentFromSettings(ss + [s]) == PaymentFromSettings(ss)
  {
    assert (ss + [s])[..|ss + [s]| - 1] == ss;
  }

  /**
   * A recognised row with a value that does not parse resets its field to
   * the default, whatever earlier rows set it to, and leaves the others.
   */
  lemma PaymentUnparsableResets(ss: seq<AppSetting>, s: AppSetting)
    requires s.key == KeyRegularFee && ParseInt(s.value, I64Min, I64Max).None?
    ensures PaymentFromSettings(ss + [s]) == PaymentFromSettings(ss).(regular_membership_fee := 5000)
  {
    assert (ss + [s])[..|ss + [s]| - 1] == ss;
  }

  // ---------------------------------------------------------------------------
  // MembershipConfig
  // ---------------------------------------------------------------------------

  datatype MembershipConfig = MembershipConfig(
    auto_approve: bool,
    require_payment_for_activation: bool,
    default_duration_months: int)

  const KeyAutoApprove := "membership.auto_approve"
  const KeyRequirePayment := "membership.require_payment_for_activation"
  const KeyDefaultDuration := "membership.default_duration_months"

  const DefaultMembershipConfig := MembershipConfig(false, true, 12)

  function ApplyMembership(c: MembershipConfig, s: AppSetting): MembershipConfig {
    if s.key == KeyAutoApprove then c.(auto_approve := ParseBool(s.value).GetOr(false))
    else if s.key == KeyRequirePayment then c.(require_payment_for_activation := ParseBool(s.value).GetOr(true))
    else if s.key == KeyDefaultDuration then c.(default_duration_months := ParseInt(s.value, I32Min, I32Max).GetOr(12))
    else c
  }

  /** `MembershipConfig::from_settings`. */
  function MembershipFromSettings(ss: seq<AppSetting>): MembershipConfig
    decreases |ss|
  {
    if |ss| == 0 then DefaultMembershipConfig
    else ApplyMembership(MembershipFromSettings(ss[..|ss| - 1]), ss[|ss| - 1])
  }

  /** Each membership field is decided by the last row of its key, or its default. */
  lemma {:induction false} MembershipFieldsFromLastValues(ss: seq<AppSetting>)
    ensures var c := MembershipFromSettings(ss);
      && c.auto_approve == ResolveBool(LastValue(ss, KeyAutoApprove), false)
      && c.require_payment_for_activation == ResolveBool(LastValue(ss, KeyRequirePayment), true)
      && c.default_duration_months == ResolveInt(LastValue(ss, KeyDefaultDuration), I32Min, I32Max, 12)
    decreases |ss|
  {
    if |ss| > 0 {
      MembershipFieldsFromLastValues(ss[..|ss| - 1]);
    }
  }

  lemma MembershipDefaults()
    ensures MembershipFromSettings([]) == MembershipConfig(false, true, 12)
  {
  }

  /**
   * Boolean rows accept only the exact texts "true" and "false"; a row with
   * any other text ("TRUE", "1", "yes") yields the default.
   */
  lemma AutoApproveOnlyExactTrue(ss: seq<AppSetting>, s: AppSetting)
    requires s.key == KeyAutoApprove
    ensures MembershipFromSettings(ss + [s]).auto_approve <==> s.value == "true"
  {
    assert (ss + [s])[..|ss + [s]| - 1] == ss;
  }
}
