/**
 * The admin settings page: settings shown by category in a fixed order,
 * each with a display name built from its key and its value hidden when
 * sensitive, and the form that updates one setting behind the admin and
 * CSRF checks.
 */
module AdminSettings {
  import opened Wrappers
  import opened Text
  import opened Errors
  import opened Domain
  import opened Collections
  import opened Settings
  import opened SettingsService
  import Access

  // ---------------------------------------------------------------------------
  // Display names
  // ---------------------------------------------------------------------------

  /** `str::replace` of one character by another. */
  function ReplaceChar(s: string, from: char, to: char): (r: string)
    ensures |r| == |s|
    ensures forall k :: 0 <= k < |s| ==> r[k] == if s[k] == from then to else s[k]
  {
    seq(|s|, k requires 0 <= k < |s| => if s[k] == from then to else s[k])
  }

  /** The first character upper-cased, the rest unchanged. */
  function Capitalize(w: string): (r: string)
    ensures |r| == |w|
    ensures |w| > 0 ==> r[0] == UpperChar(w[0]) && r[1..] == w[1..]
  {
    if |w| == 0 then "" else [UpperChar(w[0])] + w[1..]
  }

  function CapitalizeAll(ws: seq<string>): (r: seq<string>)
    ensures |r| == |ws| && forall i :: 0 <= i < |ws| ==> r[i] == Capitalize(ws[i])
  {
    seq(|ws|, i requires 0 <= i < |ws| => Capitalize(ws[i]))
  }

  /** A character a display word never holds. */
  predicate Excluded(c: char) {
    c == '.' || c == '_' || IsWhitespace(c)
  }

  /**
   * The words of the display name: the key's last '.' segment with '_'
   * read as a space, split at whitespace, each word capitalised.
   */
  function DisplayWords(key: string): (ws: seq<string>)
    ensures forall i :: 0 <= i < |ws| ==> |ws[i]| > 0 && !IsLower(ws[i][0])
    ensures forall i, k :: 0 <= i < |ws| && 0 <= k < |ws[i]| ==> !Excluded(ws[i][k])
  {
    var words := Words(ReplaceChar(LastSegment(key, '.'), '_', ' '));
    SegmentWordsClean(LastSegment(key, '.'));
    var ws := CapitalizeAll(words);
    forall i | 0 <= i < |ws|
      ensures |ws[i]| > 0 && !IsLower(ws[i][0]) && forall k :: 0 <= k < |ws[i]| ==> !Excluded(ws[i][k])
    {
      CapitalizeClean(words[i]);
    }
    ws
  }

  /** The words of a segment without '.', once '_' reads as a space, hold no excluded character. */
  lemma SegmentWordsClean(segment: string)
    requires forall k :: 0 <= k < |segment| ==> segment[k] != '.'
    ensures var words := Words(ReplaceChar(segment, '_', ' '));
            forall i, k :: 0 <= i < |words| && 0 <= k < |words[i]| ==> !Excluded(words[i][k])
  {
    var spaced := ReplaceChar(segment, '_', ' ');
    var words := Words(spaced);
    forall i, k | 0 <= i < |words| && 0 <= k < |words[i]|
      ensures !Excluded(words[i][k])
    {
      WordCharsFrom(spaced, i, k);
      var j :| 0 <= j < |spaced| && spaced[j] == words[i][k];
      assert segment[j] != '.';
    }
  }

  /** Capitalising a clean word keeps it clean and leaves no lower-case first letter. */
  lemma CapitalizeClean(w: string)
    requires |w| > 0 && forall k :: 0 <= k < |w| ==> !Excluded(w[k])
    ensures var c := Capitalize(w);
            |c| > 0 && !IsLower(c[0]) && forall k :: 0 <= k < |c| ==> !Excluded(c[k])
  {
    var c := Capitalize(w);
    forall k | 0 <= k < |c|
      ensures !Excluded(c[k])
    {
      if k > 0 {
        assert c[k] == c[1..][k - 1] == w[1..][k - 1] == w[k];
      }
    }
  }

  /** A character of a word of `s` is a non-whitespace character of `s`. */
  lemma WordCharsFrom(s: string, i: int, k: int)
    requires 0 <= i < |Words(s)| && 0 <= k < |Words(s)[i]|
    ensures !IsWhitespace(Words(s)[i][k])
    ensures exists j :: 0 <= j < |s| && s[j] == Words(s)[i][k]
  {
    var pieces := SplitBy(s, IsWhitespace);
    assert Words(s)[i] in pieces;
    var p :| 0 <= p < |pieces| && pieces[p] == Words(s)[i];
    assert pieces[p][k] in s;
  }

  /** `setting_to_info`'s display name: the capitalised words joined by single spaces. */
  function DisplayName(key: string): string {
    Join(DisplayWords(key), " ")
  }

  /** `s.split(c).last()` of text with a `c` in it looks only after that `c`. */
  lemma {:induction false} LastSegmentAfter(prefix: string, s: string, c: char)
    ensures LastSegment(prefix + [c] + s, c) == LastSegment(s, c)
    decreases |s|
  {
    var whole := prefix + [c] + s;
    if |s| == 0 {
      assert whole[|whole| - 1] == c;
    } else {
      var last := s[|s| - 1];
      assert whole[|whole| - 1] == last;
      if last != c {
        var init := s[..|s| - 1];
        assert whole[..|whole| - 1] == prefix + [c] + init;
        LastSegmentAfter(prefix, init, c);
        LastSegmentStep(whole, c);
        LastSegmentStep(s, c);
      }
    }
  }

  /** One step of `LastSegment` over a last character other than `c`. */
  lemma LastSegmentStep(s: string, c: char)
    requires |s| > 0 && s[|s| - 1] != c
    ensures LastSegment(s, c) == LastSegment(s[..|s| - 1], c) + [s[|s| - 1]]
  {
  }

  /** Only the last segment of a key reaches its display name: "org.name" shows as "name" would. */
  lemma DisplayNameOfLastSegment(prefix: string, key: string)
    ensures DisplayName(prefix + "." + key) == DisplayName(key)
  {
    LastSegmentAfter(prefix, key, '.');
  }

  /** A key's display name is its capitalised last segment when that segment is one plain word. */
  lemma OneWordDisplayName(prefix: string, word: string)
    requires |word| > 0 && forall k :: 0 <= k < |word| ==> !Excluded(word[k])
    ensures DisplayName(prefix + "." + word) == Capitalize(word)
  {
    DisplayNameOfLastSegment(prefix, word);
    PlainDisplayWords(word);
  }

  lemma PlainDisplayWords(word: string)
    requires |word| > 0 && forall k :: 0 <= k < |word| ==> !Excluded(word[k])
    ensures DisplayWords(word) == [Capitalize(word)]
  {
    LastSegmentPlain(word, '.');
    NoUnderscoreUnchanged(word);
    PlainIsOneWord(word);
  }

  lemma NoUnderscoreUnchanged(s: string)
    requires forall k :: 0 <= k < |s| ==> s[k] != '_'
    ensures ReplaceChar(s, '_', ' ') == s
  {
  }

  /** A segment without the separator is its own last segment. */
  lemma {:induction false} LastSegmentPlain(s: string, c: char)
    requires forall k :: 0 <= k < |s| ==> s[k] != c
    ensures LastSegment(s, c) == s
    decreases |s|
  {
    if |s| > 0 {
      LastSegmentPlain(s[..|s| - 1], c);
      assert s[..|s| - 1] + [s[|s| - 1]] == s;
    }
  }

  /** Text without whitespace is a single word. */
  lemma PlainIsOneWord(s: string)
    requires |s| > 0 && forall k :: 0 <= k < |s| ==> !IsWhitespace(s[k])
    ensures Words(s) == [s]
  {
    SplitPlain(s);
  }

  lemma {:induction false} SplitPlain(s: string)
    requires forall k :: 0 <= k < |s| ==> !IsWhitespace(s[k])
    ensures SplitBy(s, IsWhitespace) == [s]
  {
    if |s| > 0 {
      SplitPlain(s[1..]);
      assert [s[0]] + s[1..] == s;
    }
  }

  // ---------------------------------------------------------------------------
  // Settings as shown
  // ---------------------------------------------------------------------------

  datatype SettingInfo = SettingInfo(
    key: string,
    display_name: string,
    value: string,
    value_type: string,
    description: Option<string>,
    is_sensitive: bool)

  /** `setting_to_info`: a sensitive setting is shown with an empty value. */
  function SettingToInfo(s: AppSetting): (r: SettingInfo)
    ensures r.key == s.key && r.display_name == DisplayName(s.key) && r.is_sensitive == s.is_sensitive
    ensures s.is_sensitive ==> r.value == ""
    ensures !s.is_sensitive ==> r.value == s.value
  {
    SettingInfo(s.key, DisplayName(s.key), if s.is_sensitive then "" else s.value,
                SettingTypeName(s.value_type), s.description, s.is_sensitive)
  }

  /** What the page shows of a sensitive setting does not depend on its value. */
  lemma SensitiveValueNotShown(s: AppSetting, value: string)
    requires s.is_sensitive
    ensures SettingToInfo(s.(value := value)) == SettingToInfo(s)
  {
  }

  function InfosOf(ss: seq<AppSetting>): (r: seq<SettingInfo>)
    ensures |r| == |ss| && forall k :: 0 <= k < |ss| ==> r[k] == SettingToInfo(ss[k])
  {
    seq(|ss|, k requires 0 <= k < |ss| => SettingToInfo(ss[k]))
  }

  // ---------------------------------------------------------------------------
  // Categories in their fixed order
  // ---------------------------------------------------------------------------

  datatype CategoryMeta = CategoryMeta(name: string, display_name: string, description: string)

  datatype CategoryInfo = CategoryInfo(name: string, display_name: string, description: string,
                                       settings: seq<SettingInfo>)

  /** The categories the page knows, in the order it shows them. */
  const Metas: seq<CategoryMeta> := [
    CategoryMeta("organization", "Organization", "Basic organization information"),
    CategoryMeta("membership", "Membership", "Membership approval and duration settings"),
    CategoryMeta("payment", "Payment", "Payment amounts and timing"),
    CategoryMeta("features", "Features", "Enable or disable application features"),
    CategoryMeta("integrations", "Integrations", "Third-party service connections")
  ]

  function MetaNames(metas: seq<CategoryMeta>): (r: seq<string>)
    ensures |r| == |metas| && forall i :: 0 <= i < |metas| ==> r[i] == metas[i].name
  {
    if |metas| == 0 then [] else [metas[0].name] + MetaNames(metas[1..])
  }

  function Names(cs: seq<CategoryInfo>): (r: seq<string>)
    ensures |r| == |cs| && forall i :: 0 <= i < |cs| ==> r[i] == cs[i].name
  {
    seq(|cs|, i requires 0 <= i < |cs| => cs[i].name)
  }

  function Named(name: string): Category -> bool {
    (g: Category) => g.name == name
  }

  /** The page shows a category when the first group of that name has settings. */
  function Showing(gs: seq<Category>): string -> bool {
    (name: string) => FindFirst(gs, Named(name)).Some? && |FindFirst(gs, Named(name)).value.settings| > 0
  }

  /** The per-category step of `fetch_settings_by_category`. */
  function Shown(gs: seq<Category>, meta: CategoryMeta): (r: Option<CategoryInfo>)
    ensures r.Some? <==> Showing(gs)(meta.name)
    ensures r.Some? ==> && r.value.name == meta.name && r.value.display_name == meta.display_name
                        && r.value.settings == InfosOf(FindFirst(gs, Named(meta.name)).value.settings)
  {
    match FindFirst(gs, Named(meta.name))
    case None => None
    case Some(g) =>
      if |g.settings| == 0 then None
      else Some(CategoryInfo(meta.name, meta.display_name, meta.description, InfosOf(g.settings)))
  }

  /** `fetch_settings_by_category` over a list of categories. */
  function Fetch(gs: seq<Category>, metas: seq<CategoryMeta>): (r: seq<CategoryInfo>)
    ensures forall i :: 0 <= i < |r| ==> |r[i].settings| > 0
  {
    if |metas| == 0 then []
    else
      var rest := Fetch(gs, metas[1..]);
      match Shown(gs, metas[0])
      case None => rest
      case Some(c) => [c] + rest
  }

  /** The fetched categories are the listed ones that are shown, in the listed order. */
  lemma {:induction false} FetchNames(gs: seq<Category>, metas: seq<CategoryMeta>)
    ensures Names(Fetch(gs, metas)) == Filter(MetaNames(metas), Showing(gs))
  {
    if |metas| > 0 {
      var rest := Fetch(gs, metas[1..]);
      FetchNames(gs, metas[1..]);
      var ns := MetaNames(metas);
      var p := Showing(gs);
      assert ns[1..] == MetaNames(metas[1..]);
      assert ns[0] == metas[0].name;
      match Shown(gs, metas[0])
      case None =>
        assert Fetch(gs, metas) == rest;
        assert Filter(ns, p) == Filter(ns[1..], p);
      case Some(c) =>
        assert Fetch(gs, metas) == [c] + rest;
        assert Filter(ns, p) == [ns[0]] + Filter(ns[1..], p);
        NamesCons(c, rest);
    }
  }

  lemma NamesCons(c: CategoryInfo, rest: seq<CategoryInfo>)
    ensures Names([c] + rest) == [c.name] + Names(rest)
  {
  }



  /** The categories on the page, from all settings. */
  function PageCategories(rows: Rows): seq<CategoryInfo> {
    Fetch(AllSettings(rows), Metas)
  }

  /** Some stored setting is in the category. */
  function HasRows(rows: Rows): string -> bool {
    (name: string) => exists i :: 0 <= i < |rows| && rows[i].category == name
  }

  /** In well-formed groups, a group has a name exactly when some grouped setting has that category. */
  lemma {:induction false} GroupsCoverCategories(gs: seq<Category>, name: string)
    requires forall i :: 0 <= i < |gs| ==> WellFormed(gs[i])
    ensures (exists i :: 0 <= i < |gs| && gs[i].name == name)
            <==> (exists x :: x in Flatten(gs) && x.category == name)
  {
    if |gs| > 0 {
      GroupsCoverCategories(gs[1..], name);
      assert Flatten(gs) == gs[0].settings + Flatten(gs[1..]);
      if gs[0].name == name {
        assert gs[0].settings[0] in Flatten(gs);
      }
      if exists x :: x in Flatten(gs) && x.category == name {
        var x :| x in Flatten(gs) && x.category == name;
        if x in gs[0].settings {
          var k :| 0 <= k < |gs[0].settings| && gs[0].settings[k] == x;
          assert gs[0].name == name;
        } else {
          var i :| 0 <= i < |gs[1..]| && gs[1..][i].name == name;
          assert gs[i + 1].name == name;
        }
      }
      if exists i :: 0 <= i < |gs| && gs[i].name == name {
        var i :| 0 <= i < |gs| && gs[i].name == name;
        if i > 0 {
          assert gs[1..][i - 1].name == name;
        }
      }
    }
  }

  /** A category is shown exactly when some stored setting belongs to it. */
  lemma ShowingIffRows(rows: Rows, name: string)
    ensures Showing(AllSettings(rows))(name) <==> HasRows(rows)(name)
  {
    ShowingIffGrouped(AllSettings(rows), name);
    GroupedIffRows(rows, name);
  }

  /** Over well-formed groups, a name is shown exactly when some grouped setting has that category. */
  lemma ShowingIffGrouped(gs: seq<Category>, name: string)
    requires forall i :: 0 <= i < |gs| ==> WellFormed(gs[i])
    ensures Showing(gs)(name) <==> exists x :: x in Flatten(gs) && x.category == name
  {
    GroupsCoverCategories(gs, name);
    var found := FindFirst(gs, Named(name));
    if found.Some? {
      assert WellFormed(found.value) by {
        var i :| 0 <= i < |gs| && gs[i] == found.value;
      }
    }
  }

  /** Grouping keeps every setting, so the grouped categories are the stored ones. */
  lemma GroupedIffRows(rows: Rows, name: string)
    ensures (exists x :: x in Flatten(AllSettings(rows)) && x.category == name) <==> HasRows(rows)(name)
  {
    var flat := Flatten(AllSettings(rows));
    if HasRows(rows)(name) {
      var i :| 0 <= i < |rows| && rows[i].category == name;
      var x := AllRows(rows)[i];
      assert x in multiset(AllRows(rows));
      assert x in flat;
    }
    if exists x :: x in flat && x.category == name {
      var x :| x in flat && x.category == name;
      assert x in multiset(flat);
      assert x in AllRows(rows);
      var i :| 0 <= i < |rows| && AllRows(rows)[i] == x;
      assert rows[i].category == name;
    }
  }


  /**
   * The page lists, in the fixed order, exactly the known categories that
   * hold at least one setting; unknown categories never appear.
   */
  lemma PageCategoriesShown(rows: Rows)
    ensures Names(PageCategories(rows)) == Filter(MetaNames(Metas), HasRows(rows))
  {
    forall name: string
      ensures Showing(AllSettings(rows))(name) == HasRows(rows)(name)
    {
      ShowingIffRows(rows, name);
    }
    FetchNames(AllSettings(rows), Metas);
    FilterCongruent(MetaNames(Metas), Showing(AllSettings(rows)), HasRows(rows));
  }

  // ---------------------------------------------------------------------------
  // The pages
  // ---------------------------------------------------------------------------

  datatype UpdateForm = UpdateForm(csrf_token: string, setting_key: string, setting_value: string)

  /** The settings page, with the store as it stands after the request. */
  datatype SettingsPage = SettingsPage(rows: Rows, audit: seq<AuditEntry>, categories: seq<CategoryInfo>,
                                       success_message: Option<string>, error_message: Option<string>)

  datatype PageOutcome = AccessDenied | Rendered(page: SettingsPage)

  const InvalidCsrf := "Invalid CSRF token. Please try again."

  /** `admin_settings_page`: admins only. */
  function Page(rows: Rows, audit: seq<AuditEntry>, caller: Member, success: Option<string>, error: Option<string>)
    : (r: PageOutcome)
    ensures r.AccessDenied? <==> !Access.IsAdmin(caller)
    ensures r.Rendered? ==> r.page.rows == rows && r.page.audit == audit && r.page.categories == PageCategories(rows)
  {
    if !Access.IsAdmin(caller) then AccessDenied
    else Rendered(SettingsPage(rows, audit, PageCategories(rows), success, error))
  }

  function FailureMessage(e: AppError): string {
    "Failed to update setting: " + Display(e)
  }

  /** The outcome of the update itself, once the admin and CSRF checks have passed. */
  function UpdatedPage(rows: Rows, audit: seq<AuditEntry>, form: UpdateForm, changedBy: Id, auditId: Id, now: Time)
    : (p: SettingsPage)
    ensures FindRow(rows, form.setting_key).None? ==>
              && p.rows == rows && p.audit == audit && p.success_message == None
              && p.error_message == Some(FailureMessage(SettingNotFound(form.setting_key)))
    ensures FindRow(rows, form.setting_key).Some? ==>
              && p.success_message == Some("Updated '" + LastSegment(form.setting_key, '.') + "'")
              && p.error_message == None
              && |p.audit| == |audit| + 1 && p.audit[|audit|].reason == None
              && p.audit[|audit|].new_value == form.setting_value
    ensures p.categories == PageCategories(p.rows)
  {
    var req := UpdateSettingRequest(form.setting_value, None);
    match UpdateSetting(rows, audit, form.setting_key, req, changedBy, auditId, now)
    case Success((rows', audit', _)) =>
      SettingsPage(rows', audit', PageCategories(rows'), Some("Updated '" + LastSegment(form.setting_key, '.') + "'"), None)
    case Failure(e) =>
      SettingsPage(rows, audit, PageCategories(rows), None, Some(FailureMessage(e)))
  }

  /**
   * `admin_update_setting`: a non-admin is refused and an invalid CSRF token
   * re-shows the page with an error, in both cases without an update; a
   * valid request updates the setting with no reason and names the key's
   * last segment, or reports the service's error.
   */
  function AdminUpdate(rows: Rows, audit: seq<AuditEntry>, caller: Member, csrfValid: bool, form: UpdateForm,
                       auditId: Id, now: Time): (r: PageOutcome)
    ensures r.AccessDenied? <==> !Access.IsAdmin(caller)
    ensures r.Rendered? && !csrfValid ==> r.page == SettingsPage(rows, audit, PageCategories(rows), None, Some(InvalidCsrf))
    ensures r.Rendered? && (r.page.rows != rows || r.page.audit != audit) ==> Access.IsAdmin(caller) && csrfValid
    ensures r.Rendered? && csrfValid ==> r.page == UpdatedPage(rows, audit, form, caller.id, auditId, now)
  {
    if !Access.IsAdmin(caller) then AccessDenied
    else if !csrfValid then Rendered(SettingsPage(rows, audit, PageCategories(rows), None, Some(InvalidCsrf)))
    else Rendered(UpdatedPage(rows, audit, form, caller.id, auditId, now))
  }
}
