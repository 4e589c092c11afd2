/**
 * Character and string helpers shared by the model: ASCII classification and
 * case mapping, prefix and substring tests, splitting on a separator and
 * joining back, and decimal rendering of naturals.
 *
 * Rust's `to_lowercase`, `is_alphanumeric` and `is_whitespace` are Unicode
 * aware; here they are restricted to ASCII (non-ASCII characters are neither
 * letters, digits nor whitespace, and have no case).
 */
module Text {

  predicate IsDigit(c: char) { '0' <= c <= '9' }
  predicate IsUpper(c: char) { 'A' <= c <= 'Z' }
  predicate IsLower(c: char) { 'a' <= c <= 'z' }
  predicate IsAlnum(c: char) { IsDigit(c) || IsUpper(c) || IsLower(c) }

  /** Rust's `char::is_ascii_hexdigit`. */
  predicate IsHexDigit(c: char) {
    IsDigit(c) || 'a' <= c <= 'f' || 'A' <= c <= 'F'
  }

  /** Rust's `char::is_whitespace`, restricted to ASCII. */
  predicate IsWhitespace(c: char) {
    c == ' ' || c == '\t' || c == '\n' || c == '\r' || c == '\U{B}' || c == '\U{C}'
  }

  function LowerChar(c: char): (r: char)
    ensures IsUpper(c) ==> IsLower(r)
    ensures !IsUpper(c) ==> r == c
  {
    if IsUpper(c) then (c as int + 32) as char else c
  }

  function UpperChar(c: char): (r: char)
    ensures IsLower(c) ==> IsUpper(r)
    ensures !IsLower(c) ==> r == c
  {
    if IsLower(c) then (c as int - 32) as char else c
  }

  /** Rust's `str::to_lowercase` on ASCII text. */
  function Lower(s: string): (r: string)
    ensures |r| == |s|
    ensures forall i :: 0 <= i < |s| ==> r[i] == LowerChar(s[i])
  {
    if |s| == 0 then "" else [LowerChar(s[0])] + Lower(s[1..])
  }

  predicate StartsWith(s: string, prefix: string) {
    |prefix| <= |s| && s[..|prefix|] == prefix
  }

  /** Substring test (Rust's `str::contains` with a string pattern). */
  predicate Contains(s: string, sub: string)
    decreases |s|
  {
    StartsWith(s, sub) || (|s| > 0 && Contains(s[1..], sub))
  }

  /** A string never contains a longer one. */
  lemma {:induction false} ContainsTooLong(s: string, sub: string)
    requires |s| < |sub|
    ensures !Contains(s, sub)
    decreases |s|
  {
    if |s| > 0 {
      ContainsTooLong(s[1..], sub);
    }
  }

  /** Lower-casing both sides keeps a substring a substring. */
  lemma {:induction false} ContainsLower(s: string, sub: string)
    requires Contains(s, sub)
    ensures Contains(Lower(s), Lower(sub))
    decreases |s|
  {
    if StartsWith(s, sub) {
      assert Lower(s)[..|sub|] == Lower(sub);
    } else {
      ContainsLower(s[1..], sub);
      assert Lower(s)[1..] == Lower(s[1..]);
    }
  }

  predicate ContainsChar(s: string, c: char) {
    exists i :: 0 <= i < |s| && s[i] == c
  }

  /**
   * Rust's `str::split` with a character predicate: the pieces between
   * separators, including empty ones; there is always at least one piece.
   */
  function SplitBy(s: string, sep: char -> bool): (r: seq<string>)
    ensures |r| >= 1
    ensures forall i, k :: 0 <= i < |r| && 0 <= k < |r[i]| ==> !sep(r[i][k])
    ensures forall i, k :: 0 <= i < |r| && 0 <= k < |r[i]| ==> r[i][k] in s
  {
    if |s| == 0 then [""]
    else
      var rest := SplitBy(s[1..], sep);
      if sep(s[0]) then [""] + rest
      else [[s[0]] + rest[0]] + rest[1..]
  }

  function Split(s: string, c: char): (r: seq<string>)
    ensures |r| >= 1
  {
    SplitBy(s, x => x == c)
  }

  /** Rust's `join` of a sequence of strings. */
  function Join(pieces: seq<string>, sep: string): string {
    if |pieces| == 0 then ""
    else if |pieces| == 1 then pieces[0]
    else pieces[0] + sep + Join(pieces[1..], sep)
  }

  /** The non-empty pieces, in order (`filter(|s| !s.is_empty())`). */
  function NonEmpty(pieces: seq<string>): (r: seq<string>)
    ensures |r| <= |pieces|
    ensures forall i :: 0 <= i < |r| ==> |r[i]| > 0
    ensures forall i :: 0 <= i < |r| ==> r[i] in pieces
  {
    if |pieces| == 0 then []
    else if |pieces[0]| == 0 then NonEmpty(pieces[1..])
    else [pieces[0]] + NonEmpty(pieces[1..])
  }

  /** Rust's `split_whitespace`: the maximal runs of non-whitespace. */
  function Words(s: string): (r: seq<string>)
    ensures forall i :: 0 <= i < |r| ==> |r[i]| > 0
  {
    NonEmpty(SplitBy(s, IsWhitespace))
  }

  /** `s.split(c).last()`: the text after the last `c`, or all of `s`. */
  function LastSegment(s: string, c: char): (r: string)
    ensures |r| <= |s|
    ensures r == s[|s| - |r|..]
    ensures forall k :: 0 <= k < |r| ==> r[k] != c
    ensures |r| < |s| ==> s[|s| - |r| - 1] == c
    decreases |s|
  {
    if |s| == 0 then ""
    else if s[|s| - 1] == c then ""
    else
      var t := LastSegment(s[..|s| - 1], c);
      LastSegmentSnoc(s, t, c);
      t + [s[|s| - 1]]
  }

  /**
   * The recursive step of `LastSegment`: when `s` ends in a character other
   * than `c`, that character after the final segment of the rest of `s` is
   * the final segment of `s`.
   */
  lemma LastSegmentSnoc(s: string, t: string, c: char)
    requires |s| > 0 && s[|s| - 1] != c
    requires var init := s[..|s| - 1];
             && |t| <= |init| && t == init[|init| - |t|..]
             && (forall k :: 0 <= k < |t| ==> t[k] != c)
             && (|t| < |init| ==> init[|init| - |t| - 1] == c)
    ensures var r := t + [s[|s| - 1]];
            && |r| <= |s| && r == s[|s| - |r|..]
            && (forall k :: 0 <= k < |r| ==> r[k] != c)
            && (|r| < |s| ==> s[|s| - |r| - 1] == c)
  {
    var init, r := s[..|s| - 1], t + [s[|s| - 1]];
    assert init + [s[|s| - 1]] == s;
    assert r == s[|s| - |r|..];
    assert |r| < |s| ==> s[|s| - |r| - 1] == init[|init| - |t| - 1];
  }

  /** Decimal rendering of a natural number, most significant digit first. */
  function NatToString(n: nat): (r: string)
    ensures |r| >= 1
    ensures forall i :: 0 <= i < |r| ==> IsDigit(r[i])
  {
    if n < 10 then [DigitChar(n)] else NatToString(n / 10) + [DigitChar(n % 10)]
  }

  function DigitChar(d: nat): (c: char)
    requires d < 10
    ensures IsDigit(c)
  {
    ('0' as int + d) as char
  }

  function DigitValue(c: char): (d: nat)
    requires IsDigit(c)
    ensures d < 10 && DigitChar(d) == c
  {
    c as int - '0' as int
  }

  /** Value of a non-empty run of decimal digits. */
  function DigitsValue(s: string): nat
    requires forall i :: 0 <= i < |s| ==> IsDigit(s[i])
  {
    if |s| == 0 then 0 else DigitsValue(s[..|s| - 1]) * 10 + DigitValue(s[|s| - 1])
  }

  /** Reading back a rendered natural gives the natural. */
  lemma {:induction false} NatToStringRoundTrip(n: nat)
    ensures DigitsValue(NatToString(n)) == n
  {
    if n >= 10 {
      var s := NatToString(n);
      assert s[..|s| - 1] == NatToString(n / 10);
      NatToStringRoundTrip(n / 10);
    }
  }
  // ---------------------------------------------------------------------------
  // UTF-8 lengths
  // ---------------------------------------------------------------------------

  /** The number of bytes UTF-8 spends on a character. */
  function Utf8Width(c: char): (w: nat)
    ensures 1 <= w <= 4
    ensures (c as int < 0x80) <==> w == 1
  {
    if c as int < 0x80 then 1
    else if c as int < 0x800 then 2
    else if c as int < 0x1_0000 then 3
    else 4
  }

  /** `str::len`: the length in bytes of the UTF-8 encoding. */
  function ByteLen(s: string): (n: nat)
    ensures n >= |s|
  {
    if |s| == 0 then 0 else Utf8Width(s[0]) + ByteLen(s[1..])
  }

  lemma {:induction false} ByteLenConcat(a: string, b: string)
    ensures ByteLen(a + b) == ByteLen(a) + ByteLen(b)
  {
    if |a| == 0 {
      assert a + b == b;
    } else {
      assert (a + b)[0] == a[0] && (a + b)[1..] == a[1..] + b;
      ByteLenConcat(a[1..], b);
    }
  }

  /** Longer prefixes take more bytes, strictly. */
  lemma PrefixByteLenGrows(s: string, i: nat, j: nat)
    requires i < j <= |s|
    ensures ByteLen(s[..i]) < ByteLen(s[..j])
  {
    assert s[..j] == s[..i] + s[i..j];
    ByteLenConcat(s[..i], s[i..j]);
  }

  /** Byte offset `n` falls between two characters of `s` (or at an end). */
  predicate IsCharBoundary(s: string, n: nat) {
    exists k :: 0 <= k <= |s| && ByteLen(s[..k]) == n
  }

  /**
   * An offset strictly inside the encoding of character `i` is no boundary,
   * and the whole string is longer than it.
   */
  lemma InsideCharNoBoundary(s: string, i: nat, n: nat)
    requires i < |s| && ByteLen(s[..i]) < n < ByteLen(s[..i + 1])
    ensures !IsCharBoundary(s, n) && ByteLen(s) > n
  {
    forall k | 0 <= k <= |s|
      ensures ByteLen(s[..k]) != n
    {
      PrefixMissesInside(s, i, n, k);
    }
    WholeAtLeastPrefix(s, i + 1);
  }

  lemma PrefixMissesInside(s: string, i: nat, n: nat, k: nat)
    requires i < |s| && ByteLen(s[..i]) < n < ByteLen(s[..i + 1]) && k <= |s|
    ensures ByteLen(s[..k]) != n
  {
    if k < i {
      PrefixByteLenGrows(s, k, i);
    } else if k > i + 1 {
      PrefixByteLenGrows(s, i + 1, k);
    }
  }

  /** The whole string takes at least as many bytes as any prefix. */
  lemma WholeAtLeastPrefix(s: string, k: nat)
    requires k <= |s|
    ensures ByteLen(s[..k]) <= ByteLen(s)
  {
    assert s == s[..k] + s[k..];
    ByteLenConcat(s[..k], s[k..]);
  }

  /** How many leading characters fit in `budget` bytes: the longest such prefix. */
  function FitChars(s: string, budget: nat): (k: nat)
    ensures k <= |s| && ByteLen(s[..k]) <= budget
    ensures k < |s| ==> ByteLen(s[..k + 1]) > budget
  {
    if |s| == 0 || Utf8Width(s[0]) > budget then
      assert s[..0] == [];
      assert |s| > 0 ==> s[..1] == [s[0]];
      0
    else
      var k := FitChars(s[1..], budget - Utf8Width(s[0]));
      assert s[..k + 1][1..] == s[1..][..k];
      assert k + 1 < |s| ==> s[..k + 2][1..] == s[1..][..k + 1];
      k + 1
  }

  /** A byte offset below the total is a boundary exactly when the longest prefix within it ends there. */
  lemma BoundaryAtFit(s: string, n: nat)
    ensures IsCharBoundary(s, n) <==> ByteLen(s[..FitChars(s, n)]) == n
  {
    var f := FitChars(s, n);
    if IsCharBoundary(s, n) {
      var k :| 0 <= k <= |s| && ByteLen(s[..k]) == n;
      if k < f {
        PrefixByteLenGrows(s, k, f);
      } else if f + 1 < k {
        PrefixByteLenGrows(s, f + 1, k);
      }
    }
  }
}
