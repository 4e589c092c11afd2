/**
 * Pure helpers behind the configurable event, announcement and membership
 * types: slug derivation, colour validation, the billing-period codec and the
 * default type tables seeded into an empty database.
 */
module ConfigurableTypes {
  import opened Wrappers
  import opened Text

  // ---------------------------------------------------------------------------
  // Slugs
  // ---------------------------------------------------------------------------

  predicate SlugChar(c: char) { IsLower(c) || IsDigit(c) }

  /**
   * A well-formed slug: lower-case letters and digits in non-empty runs
   * separated by single dashes, with no dash at either end.
   */
  predicate IsSlug(s: string) {
    && (forall i :: 0 <= i < |s| ==> SlugChar(s[i]) || s[i] == '-')
    && (|s| > 0 ==> s[0] != '-' && s[|s| - 1] != '-')
    && (forall i :: 0 <= i < |s| - 1 ==> s[i] == '-' ==> s[i + 1] != '-')
  }

  /** Lower-case every character and turn every non-alphanumeric one into a dash. */
  function SlugCharOf(c: char): char {
    if IsAlnum(LowerChar(c)) then LowerChar(c) else '-'
  }

  function Normalize(s: string): (r: string)
    ensures |r| == |s|
    ensures forall i :: 0 <= i < |s| ==> r[i] == SlugCharOf(s[i])
  {
    if |s| == 0 then "" else [SlugCharOf(s[0])] + Normalize(s[1..])
  }

  /**
   * `slugify`: normalise, split on dashes, drop the empty pieces and join the
   * rest with single dashes.
   */
  function Slugify(name: string): (r: string)
    ensures IsSlug(r)
  {
    SlugOfNormalized(Normalize(name))
  }

  function SlugOfNormalized(t: string): (r: string)
    requires forall i :: 0 <= i < |t| ==> SlugChar(t[i]) || t[i] == '-'
    ensures IsSlug(r)
  {
    var pieces := NonEmpty(Split(t, '-'));
    SlugPieces(Split(t, '-'), t);
    JoinIsSlug(pieces);
    Join(pieces, "-")
  }

  /** Every piece of a normalised name consists of slug characters only. */
  lemma SlugPieces(ps: seq<string>, t: string)
    requires ps == Split(t, '-')
    requires forall i :: 0 <= i < |t| ==> SlugChar(t[i]) || t[i] == '-'
    ensures forall i, k :: 0 <= i < |NonEmpty(ps)| && 0 <= k < |NonEmpty(ps)[i]| ==> SlugChar(NonEmpty(ps)[i][k])
  {
    forall i, k | 0 <= i < |NonEmpty(ps)| && 0 <= k < |NonEmpty(ps)[i]|
      ensures SlugChar(NonEmpty(ps)[i][k])
    {
      var p := NonEmpty(ps)[i];
      assert p in ps;
      var j :| 0 <= j < |ps| && ps[j] == p;
      assert ps[j][k] in t && ps[j][k] != '-';
    }
  }

  /** Joining non-empty runs of slug characters with dashes yields a slug. */
  lemma {:induction false} JoinIsSlug(ps: seq<string>)
    requires forall i :: 0 <= i < |ps| ==> |ps[i]| > 0
    requires forall i, k :: 0 <= i < |ps| && 0 <= k < |ps[i]| ==> SlugChar(ps[i][k])
    ensures IsSlug(Join(ps, "-"))
  {
    if |ps| == 1 {
      assert forall k :: 0 <= k < |ps[0]| ==> SlugChar(ps[0][k]);
    } else if |ps| > 1 {
      JoinIsSlug(ps[1..]);
      var head, tail := ps[0], Join(ps[1..], "-");
      assert forall k :: 0 <= k < |head| ==> SlugChar(head[k]);
      var s := head + "-" + tail;
      assert |tail| > 0 by {
        JoinLength(ps[1..]);
        assert |ps[1..][0]| > 0;
      }
      forall i | 0 <= i < |s| - 1 && s[i] == '-'
        ensures s[i + 1] != '-'
      {
        if i < |head| { assert false; }
        else if i == |head| { assert s[i + 1] == tail[0]; }
        else { assert s[i] == tail[i - |head| - 1] && s[i + 1] == tail[i - |head|]; }
      }
      assert Join(ps, "-") == s;
    }
  }

  /** A join is at least as long as its first piece. */
  lemma JoinLength(ps: seq<string>)
    requires |ps| >= 1
    ensures |Join(ps, "-")| >= |ps[0]|
  {
  }

  /** Splitting on dashes and joining back with dashes restores the text. */
  lemma {:induction false} JoinSplit(s: string)
    ensures Join(Split(s, '-'), "-") == s
  {
    if |s| > 0 {
      var rest := Split(s[1..], '-');
      JoinSplit(s[1..]);
      if s[0] == '-' {
        assert Split(s, '-') == [""] + rest;
        assert ([""] + rest)[1..] == rest;
        assert Join([""] + rest, "-") == "" + "-" + Join(rest, "-");
      } else {
        assert Split(s, '-') == [[s[0]] + rest[0]] + rest[1..];
        JoinCons(s[0], rest);
      }
    }
  }

  /** Prepending a character to the first piece prepends it to the join. */
  lemma {:induction false} JoinCons(c: char, r: seq<string>)
    requires |r| >= 1
    ensures Join([[c] + r[0]] + r[1..], "-") == [c] + Join(r, "-")
  {
    var ps := [[c] + r[0]] + r[1..];
    if |r| == 1 {
      assert ps == [[c] + r[0]];
    } else {
      assert ps[0] == [c] + r[0];
      assert ps[1..] == r[1..];
      calc {
        Join(ps, "-");
        ps[0] + "-" + Join(ps[1..], "-");
        ([c] + r[0]) + "-" + Join(r[1..], "-");
        [c] + (r[0] + "-" + Join(r[1..], "-"));
        [c] + Join(r, "-");
      }
    }
  }

  /** A dash-free word is a single piece. */
  lemma {:induction false} SplitWord(w: string)
    requires forall k :: 0 <= k < |w| ==> w[k] != '-'
    ensures Split(w, '-') == [w]
  {
    if |w| > 0 {
      SplitWord(w[1..]);
      assert [w[0]] + w[1..] == w;
    }
  }

  /** One step of splitting at dashes: the first character opens a new piece or joins the first one. */
  lemma SplitStep(s: string)
    requires |s| > 0
    ensures var rest := Split(s[1..], '-');
            Split(s, '-') == if s[0] == '-' then [""] + rest else [[s[0]] + rest[0]] + rest[1..]
  {
  }

  /** Splitting at a dash splits the two sides independently. */
  lemma {:induction false} SplitConcat(x: string, y: string)
    ensures Split(x + "-" + y, '-') == Split(x, '-') + Split(y, '-')
  {
    var s := x + "-" + y;
    SplitStep(s);
    if |x| == 0 {
      assert s[0] == '-' && s[1..] == y;
    } else {
      assert s[0] == x[0] && s[1..] == x[1..] + "-" + y;
      SplitConcat(x[1..], y);
      SplitStep(x);
      if x[0] != '-' {
        PieceJoin(x[0], Split(x[1..], '-'), Split(y, '-'));
      }
    }
  }

  /** A character joining the first piece of `r + q` joins the first piece of `r`. */
  lemma PieceJoin(c: char, r: seq<string>, q: seq<string>)
    requires |r| >= 1
    ensures [[c] + (r + q)[0]] + (r + q)[1..] == ([[c] + r[0]] + r[1..]) + q
  {
    assert (r + q)[0] == r[0];
    assert (r + q)[1..] == r[1..] + q;
  }

  /** Round trip the other way: joining dash-free pieces and splitting gives the pieces back. */
  lemma {:induction false} SplitJoin(ws: seq<string>)
    requires |ws| >= 1
    requires forall i, k :: 0 <= i < |ws| && 0 <= k < |ws[i]| ==> ws[i][k] != '-'
    ensures Split(Join(ws, "-"), '-') == ws
  {
    if |ws| == 1 {
      SplitWord(ws[0]);
    } else {
      SplitJoin(ws[1..]);
      assert forall k :: 0 <= k < |ws[0]| ==> ws[0][k] != '-';
      SplitWord(ws[0]);
      SplitConcat(ws[0], Join(ws[1..], "-"));
      assert [ws[0]] + ws[1..] == ws;
    }
  }

  /**
   * In a text with no doubled and no trailing dash, every piece of the split
   * after the first is non-empty, and the first is empty only when the text
   * is empty or starts with a dash.
   */
  lemma {:induction false} SplitPiecesNonEmpty(s: string)
    requires forall i :: 0 <= i < |s| - 1 ==> s[i] == '-' ==> s[i + 1] != '-'
    requires |s| > 0 ==> s[|s| - 1] != '-'
    ensures forall i :: 1 <= i < |Split(s, '-')| ==> |Split(s, '-')[i]| > 0
    ensures |Split(s, '-')[0]| == 0 <==> |s| == 0 || s[0] == '-'
  {
    if |s| > 0 {
      var t := s[1..];
      SplitPiecesNonEmpty(t);
      var rest := Split(t, '-');
      if s[0] == '-' {
        assert |s| >= 2;
        assert t[0] == s[1] && s[1] != '-';
        assert Split(s, '-') == [""] + rest;
      } else {
        assert Split(s, '-') == [[s[0]] + rest[0]] + rest[1..];
      }
    }
  }

  lemma {:induction false} NonEmptyKeepsAll(ps: seq<string>)
    requires forall i :: 0 <= i < |ps| ==> |ps[i]| > 0
    ensures NonEmpty(ps) == ps
  {
    if |ps| > 0 {
      NonEmptyKeepsAll(ps[1..]);
      assert [ps[0]] + ps[1..] == ps;
    }
  }

  /** Normalising a slug changes nothing. */
  lemma NormalizeSlug(s: string)
    requires forall i :: 0 <= i < |s| ==> SlugChar(s[i]) || s[i] == '-'
    ensures Normalize(s) == s
  {
  }

  /** A slug is its own slug. */
  lemma SlugifyFixesSlugs(s: string)
    requires IsSlug(s)
    ensures Slugify(s) == s
  {
    NormalizeSlug(s);
    if |s| > 0 {
      SplitPiecesNonEmpty(s);
      NonEmptyKeepsAll(Split(s, '-'));
      JoinSplit(s);
    }
  }

  /** `slugify` is idempotent. */
  lemma SlugifyIdempotent(name: string)
    ensures Slugify(Slugify(name)) == Slugify(name)
  {
    SlugifyFixesSlugs(Slugify(name));
  }

  lemma {:induction false} AllDashesSplitEmpty(t: string)
    requires forall i :: 0 <= i < |t| ==> t[i] == '-'
    ensures NonEmpty(Split(t, '-')) == []
  {
    if |t| > 0 {
      AllDashesSplitEmpty(t[1..]);
      assert Split(t, '-') == [""] + Split(t[1..], '-');
    }
  }

  /** A name without letters or digits has the empty slug. */
  lemma SlugOfNoAlnumIsEmpty(name: string)
    requires forall i :: 0 <= i < |name| ==> !IsAlnum(name[i])
    ensures Slugify(name) == ""
  {
    AllDashesSplitEmpty(Normalize(name));
  }

  lemma NormalizeConcat(a: string, b: string)
    ensures Normalize(a + b) == Normalize(a) + Normalize(b)
  {
  }

  lemma {:induction false} NonEmptyConcat(p: seq<string>, q: seq<string>)
    ensures NonEmpty(p + q) == NonEmpty(p) + NonEmpty(q)
  {
    if |p| > 0 {
      NonEmptyConcat(p[1..], q);
      assert (p + q)[0] == p[0];
      assert (p + q)[1..] == p[1..] + q;
      if |p[0]| > 0 {
        assert [p[0]] + (NonEmpty(p[1..]) + NonEmpty(q)) == ([p[0]] + NonEmpty(p[1..])) + NonEmpty(q);
      }
    } else {
      assert p + q == q;
    }
  }

  lemma {:induction false} JoinConcat(p: seq<string>, q: seq<string>)
    requires |p| > 0 && |q| > 0
    ensures Join(p + q, "-") == Join(p, "-") + "-" + Join(q, "-")
  {
    if |p| > 1 {
      JoinConcat(p[1..], q);
      assert (p + q)[1..] == p[1..] + q;
    }
  }

  /** The words a slug is made of: the non-empty dash-separated runs of the normal form. */
  function SlugWords(name: string): seq<string> {
    NonEmpty(Split(Normalize(name), '-'))
  }

  /** Leading dashes contribute no words. */
  lemma {:induction false} LeadingDashes(d: string, t: string)
    requires forall i :: 0 <= i < |d| ==> d[i] == '-'
    ensures NonEmpty(Split(d + t, '-')) == NonEmpty(Split(t, '-'))
  {
    if |d| > 0 {
      LeadingDashes(d[1..], t);
      assert (d + t)[0] == '-';
      assert (d + t)[1..] == d[1..] + t;
      var rest := Split(d[1..] + t, '-');
      assert Split(d + t, '-') == [""] + rest;
      assert ([""] + rest)[1..] == rest;
    } else {
      assert d + t == t;
    }
  }

  /** Characters that are neither letters nor digits normalise to dashes. */
  lemma NonAlnumNormalizesToDashes(sep: string)
    requires forall i :: 0 <= i < |sep| ==> !IsAlnum(sep[i])
    ensures forall i :: 0 <= i < |Normalize(sep)| ==> Normalize(sep)[i] == '-'
  {
  }

  /**
   * A non-empty run of characters that are neither letters nor digits
   * separates words: the words of `a + sep + b` are those of `a` followed by
   * those of `b`.
   */
  lemma SlugWordsSeparated(a: string, sep: string, b: string)
    requires |sep| > 0 && forall i :: 0 <= i < |sep| ==> !IsAlnum(sep[i])
    ensures SlugWords(a + sep + b) == SlugWords(a) + SlugWords(b)
  {
    NormalizeConcat(a + sep, b);
    NormalizeConcat(a, sep);
    NonAlnumNormalizesToDashes(sep);
    DashesSeparate(Normalize(a), Normalize(sep), Normalize(b));
  }

  /** A non-empty run of dashes separates the words on either side of it. */
  lemma DashesSeparate(x: string, d: string, y: string)
    requires |d| > 0 && forall i :: 0 <= i < |d| ==> d[i] == '-'
    ensures NonEmpty(Split(x + d + y, '-')) == NonEmpty(Split(x, '-')) + NonEmpty(Split(y, '-'))
  {
    var rest := d[1..];
    assert x + d + y == x + "-" + (rest + y);
    SplitConcat(x, rest + y);
    NonEmptyConcat(Split(x, '-'), Split(rest + y, '-'));
    LeadingDashes(rest, y);
  }

  /** Such a run at the start of a name contributes no words. */
  lemma SlugWordsLeading(sep: string, b: string)
    requires forall i :: 0 <= i < |sep| ==> !IsAlnum(sep[i])
    ensures SlugWords(sep + b) == SlugWords(b)
  {
    NormalizeConcat(sep, b);
    NonAlnumNormalizesToDashes(sep);
    LeadingDashes(Normalize(sep), Normalize(b));
  }

  /** Such a run at the end of a name contributes no words. */
  lemma SlugWordsTrailing(a: string, sep: string)
    requires forall i :: 0 <= i < |sep| ==> !IsAlnum(sep[i])
    ensures SlugWords(a + sep) == SlugWords(a)
  {
    if |sep| == 0 {
      assert a + sep == a;
    } else {
      var na, ns := Normalize(a), Normalize(sep);
      NormalizeConcat(a, sep);
      NonAlnumNormalizesToDashes(sep);
      var rest := ns[1..];
      assert na + ns == na + "-" + rest;
      SplitConcat(na, rest);
      NonEmptyConcat(Split(na, '-'), Split(rest, '-'));
      AllDashesSplitEmpty(rest);
      assert SlugWords(a) + [] == SlugWords(a);
    }
  }

  /** The slug of a name is the join of its words. */
  lemma SlugIsJoinOfWords(name: string)
    ensures Slugify(name) == Join(SlugWords(name), "-")
    ensures Slugify(name) == "" <==> SlugWords(name) == []
  {
    var ws := SlugWords(name);
    if |ws| > 0 { JoinLength(ws); }
  }

  /** Separating two names that have letters or digits joins their slugs with one dash. */
  lemma SlugifySeparated(a: string, sep: string, b: string)
    requires |sep| > 0 && forall i :: 0 <= i < |sep| ==> !IsAlnum(sep[i])
    requires Slugify(a) != "" && Slugify(b) != ""
    ensures Slugify(a + sep + b) == Slugify(a) + "-" + Slugify(b)
  {
    SlugWordsSeparated(a, sep, b);
    SlugIsJoinOfWords(a);
    SlugIsJoinOfWords(b);
    JoinConcat(SlugWords(a), SlugWords(b));
  }

  /** Padding a name with non-alphanumeric characters on either side does not change its slug. */
  lemma SlugifyPadded(pre: string, name: string, post: string)
    requires forall i :: 0 <= i < |pre| ==> !IsAlnum(pre[i])
    requires forall i :: 0 <= i < |post| ==> !IsAlnum(post[i])
    ensures Slugify(pre + name + post) == Slugify(name)
  {
    SlugWordsTrailing(name, post);
    SlugWordsLeading(pre, name + post);
    assert pre + name + post == pre + (name + post);
    SlugIsJoinOfWords(name);
    SlugIsJoinOfWords(pre + name + post);
  }

  /** A name whose normal form is already a slug has that slug. */
  lemma SlugifyOfSlugNormal(name: string)
    requires IsSlug(Normalize(name))
    ensures Slugify(name) == Normalize(name)
  {
    SlugifyFixesSlugs(Normalize(name));
    NormalizeSlug(Normalize(name));
  }

  /**
   * Two words of letters separated by anything that is neither a letter nor a
   * digit: the slug is the two lower-cased words joined by one dash.
   */
  lemma SlugifyTwoWords(a: string, sep: string, b: string, sa: string, sb: string)
    requires |a| > 0 && forall i :: 0 <= i < |a| ==> IsUpper(a[i]) || IsLower(a[i])
    requires |b| > 0 && forall i :: 0 <= i < |b| ==> IsUpper(b[i]) || IsLower(b[i])
    requires |sep| > 0 && forall i :: 0 <= i < |sep| ==> !IsAlnum(sep[i])
    requires sa == Lower(a) && sb == Lower(b)
    ensures Slugify(a + sep + b) == sa + "-" + sb
  {
    SlugOfWord(a, sa);
    SlugOfWord(b, sb);
    SlugifySeparated(a, sep, b);
  }

  /**
   * Two of the unit-test vectors of `slugify` ("Hello World", "CTF Result"),
   * written as concatenations of their words and separators.
   */
  lemma SlugifyExamples()
    ensures Slugify("Hello" + " " + "World") == "hello" + "-" + "world"
    ensures Slugify("CTF" + " " + "Result") == "ctf" + "-" + "result"
  {
    ExampleWords();
    ExampleLower();
    SlugifyTwoWords("Hello", " ", "World", "hello", "world");
    SlugifyTwoWords("CTF", " ", "Result", "ctf", "result");
  }

  /** A non-empty word of ASCII letters only. */
  predicate LetterWord(w: string) {
    |w| > 0 && forall i :: 0 <= i < |w| ==> IsUpper(w[i]) || IsLower(w[i])
  }

  /** The words of the two test vectors are letter words. */
  lemma ExampleWords()
    ensures LetterWord("Hello") && LetterWord("World") && LetterWord("CTF") && LetterWord("Result")
  {
  }

  /** The lower-case forms of the test vectors' words, as the tests write them. */
  lemma ExampleLower()
    ensures Lower("Hello") == "hello" && Lower("World") == "world"
    ensures Lower("CTF") == "ctf" && Lower("Result") == "result"
  {
    assert Lower("Hello") == "hello";
    assert Lower("World") == "world";
    assert Lower("CTF") == "ctf";
  }

  /** One word of letters: its slug is its lower-case form. */
  lemma SlugOfWord(w: string, slug: string)
    requires |w| > 0 && forall i :: 0 <= i < |w| ==> IsUpper(w[i]) || IsLower(w[i])
    requires slug == Lower(w)
    ensures Slugify(w) == slug && slug != ""
  {
    var n := Normalize(w);
    forall i | 0 <= i < |w|
      ensures n[i] == slug[i] && IsLower(n[i])
    {
      LetterSlugChar(w[i]);
    }
    assert n == slug;
    SlugifyOfSlugNormal(w);
  }

  /** A letter's slug character is its lower-case form. */
  lemma LetterSlugChar(c: char)
    requires IsUpper(c) || IsLower(c)
    ensures SlugCharOf(c) == LowerChar(c) && IsLower(LowerChar(c))
  {
  }

  // ---------------------------------------------------------------------------
  // Colours
  // ---------------------------------------------------------------------------

  /** `validate_hex_color`: "#" followed by exactly three or six hex digits. */
  function ValidateHexColor(color: string): (ok: bool)
    ensures ok ==> |color| == 4 || |color| == 7
    ensures ok ==> color[0] == '#' && forall i :: 1 <= i < |color| ==> IsHexDigit(color[i])
    ensures ((|color| == 4 || |color| == 7) && color[0] == '#'
             && forall i :: 1 <= i < |color| ==> IsHexDigit(color[i])) ==> ok
  {
    if !StartsWith(color, "#") then false
    else
      var hex := color[1..];
      (|hex| == 3 || |hex| == 6) && forall i :: 0 <= i < |hex| ==> IsHexDigit(hex[i])
  }

  /** The unit-test vectors of `validate_hex_color`. */
  lemma HexColorExamples()
    ensures ValidateHexColor("#FFF") && ValidateHexColor("#fff")
    ensures ValidateHexColor("#FFFFFF") && ValidateHexColor("#2196F3")
    ensures !ValidateHexColor("FFF") && !ValidateHexColor("#GGGGGG") && !ValidateHexColor("#12345")
  {
    assert !IsHexDigit("#GGGGGG"[1]);
  }

  // ---------------------------------------------------------------------------
  // Billing periods
  // ---------------------------------------------------------------------------

  datatype BillingPeriod = Monthly | Yearly | Lifetime

  function AsStr(p: BillingPeriod): string {
    match p
    case Monthly => "monthly"
    case Yearly => "yearly"
    case Lifetime => "lifetime"
  }

  /** `BillingPeriod::from_str`: case-insensitive, None for anything else. */
  function FromStr(s: string): (r: Option<BillingPeriod>)
    ensures r.Some? ==> Lower(s) == AsStr(r.value)
  {
    var l := Lower(s);
    if l == "monthly" then Some(Monthly)
    else if l == "yearly" then Some(Yearly)
    else if l == "lifetime" then Some(Lifetime)
    else None
  }

  lemma LowerOfLower(s: string)
    ensures Lower(Lower(s)) == Lower(s)
  {
  }

  lemma AsStrIsLower(p: BillingPeriod)
    ensures Lower(AsStr(p)) == AsStr(p)
  {
  }

  /** `from_str` recognises a string exactly when its lower-case form is a period's name. */
  lemma FromStrExactly(s: string, p: BillingPeriod)
    ensures FromStr(s) == Some(p) <==> Lower(s) == AsStr(p)
  {
  }

  /** Round trip: every period parses back from its name, in any letter case. */
  lemma BillingPeriodRoundTrip(p: BillingPeriod, s: string)
    requires Lower(s) == AsStr(p)
    ensures FromStr(AsStr(p)) == Some(p)
    ensures FromStr(s) == Some(p)
  {
    AsStrIsLower(p);
  }

  /** Matching ignores letter case. */
  lemma FromStrIgnoresCase(s: string)
    ensures FromStr(s) == FromStr(Lower(s))
  {
    LowerOfLower(s);
  }

  lemma BillingPeriodExamples()
    ensures AsStr(Yearly) == "yearly"
    ensures FromStr("yearly") == Some(Yearly)
    ensures FromStr("YEARLY") == Some(Yearly)
  {
    assert Lower("YEARLY") == "yearly";
  }

  lemma BillingPeriodInvalid()
    ensures FromStr("invalid") == None
  {
    assert Lower("invalid") == "invalid";
  }

  // ---------------------------------------------------------------------------
  // Default type tables
  // ---------------------------------------------------------------------------

  datatype DefaultType = DefaultType(
    name: string,
    slug: string,
    color: string,
    icon: Option<string>,
    fee_cents: int,
    billing_period: string)

  const DefaultEventTypes: seq<DefaultType> := [
    DefaultType("Member Meeting", "member-meeting", "#2196F3", Some("users"), 0, ""),
    DefaultType("Social", "social", "#4CAF50", Some("glass-cheers"), 0, "")
  ]

  const DefaultAnnouncementTypes: seq<DefaultType> := [
    DefaultType("News", "news", "#2196F3", None, 0, ""),
    DefaultType("Awards", "awards", "#FFC107", None, 0, "")
  ]

  const DefaultMembershipTypes: seq<DefaultType> := [
    DefaultType("Member", "member", "#2196F3", None, 500, "monthly"),
    DefaultType("Associate", "associate", "#9C27B0", None, 10000, "monthly"),
    DefaultType("Life Member", "life-member", "#FF9800", None, 1000000, "lifetime")
  ]

  /** No two entries of a default table share a slug. */
  predicate DistinctSlugs(ds: seq<DefaultType>) {
    forall i, j :: 0 <= i < j < |ds| ==> ds[i].slug != ds[j].slug
  }

  /** Every default table has pairwise distinct slugs, so seeding never collides with itself. */
  lemma DefaultSlugsDistinct()
    ensures DistinctSlugs(DefaultEventTypes)
    ensures DistinctSlugs(DefaultAnnouncementTypes)
    ensures DistinctSlugs(DefaultMembershipTypes)
  {
  }

  /**
   * The default membership types have non-negative fees and billing periods
   * that are periods' names, so `FromStr` reads them back (`BillingPeriodRoundTrip`).
   */
  lemma DefaultMembershipTypesValid()
    ensures forall i :: 0 <= i < |DefaultMembershipTypes| ==>
              && DefaultMembershipTypes[i].fee_cents >= 0
              && DefaultMembershipTypes[i].billing_period in {AsStr(Monthly), AsStr(Yearly), AsStr(Lifetime)}
  {
  }
}
