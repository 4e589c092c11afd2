/**
 * Token material shared by sessions and CSRF protection: lower-case hex
 * encoding of bytes (the `hex` crate), random tokens made of 32 random bytes,
 * and token hashes, which are the hex encoding of a SHA-256 digest. The
 * random bytes and the digest function are parameters: the model does not
 * compute SHA-256 or draw random numbers.
 */
module Tokens {
  import opened Wrappers
  import opened Text

  type Byte = b: int | 0 <= b < 256

  predicate IsLowerHex(c: char) {
    IsDigit(c) || 'a' <= c <= 'f'
  }

  function HexDigit(n: nat): (c: char)
    requires n < 16
    ensures IsLowerHex(c)
  {
    if n < 10 then '0' + n as char else 'a' + (n - 10) as char
  }

  function HexValue(c: char): (n: nat)
    requires IsLowerHex(c)
    ensures n < 16 && HexDigit(n) == c
  {
    if IsDigit(c) then (c - '0') as nat else (c - 'a') as nat + 10
  }

  /** `hex::encode`: two lower-case hex digits per byte, high nibble first. */
  function HexEncode(bytes: seq<Byte>): (r: string)
    ensures |r| == 2 * |bytes|
    ensures forall i :: 0 <= i < |r| ==> IsLowerHex(r[i])
  {
    if |bytes| == 0 then ""
    else [HexDigit(bytes[0] / 16), HexDigit(bytes[0] % 16)] + HexEncode(bytes[1..])
  }

  /** `hex::decode` restricted to lower-case input: the inverse of `HexEncode`. */
  function HexDecode(s: string): (r: Option<seq<Byte>>)
    ensures r.Some? ==> 2 * |r.value| == |s|
    decreases |s|
  {
    if |s| == 0 then Some([])
    else if |s| == 1 || !IsLowerHex(s[0]) || !IsLowerHex(s[1]) then None
    else match HexDecode(s[2..])
      case None => None
      case Some(rest) => Some([HexValue(s[0]) * 16 + HexValue(s[1])] + rest)
  }

  /** Decoding an encoding gives the bytes back. */
  lemma {:induction false} HexRoundTrip(bytes: seq<Byte>)
    ensures HexDecode(HexEncode(bytes)) == Some(bytes)
  {
    if |bytes| > 0 {
      var s := HexEncode(bytes);
      HexRoundTrip(bytes[1..]);
      assert s[2..] == HexEncode(bytes[1..]);
      assert HexValue(s[0]) == bytes[0] / 16 && HexValue(s[1]) == bytes[0] % 16;
      assert [bytes[0]] + bytes[1..] == bytes;
    }
  }

  /** Different byte strings have different encodings. */
  lemma HexEncodeInjective(a: seq<Byte>, b: seq<Byte>)
    requires HexEncode(a) == HexEncode(b)
    ensures a == b
  {
    HexRoundTrip(a);
    HexRoundTrip(b);
  }

  /** A token of the length the generators produce: 64 lower-case hex characters. */
  predicate IsTokenText(t: string) {
    |t| == 64 && forall i :: 0 <= i < |t| ==> IsLowerHex(t[i])
  }

  /** `generate_token` / `generate_random_token`: 32 random bytes, hex-encoded. */
  function GenerateToken(random: seq<Byte>): (t: string)
    requires |random| == 32
    ensures IsTokenText(t)
    ensures HexDecode(t) == Some(random)
  {
    HexRoundTrip(random);
    HexEncode(random)
  }

  /** A SHA-256 implementation: any function returning 32 bytes. */
  type Digest = string -> seq<Byte>

  predicate IsSha256Like(sha256: Digest, input: string) {
    |sha256(input)| == 32
  }

  /** A digest function that always yields 32 bytes, as SHA-256 does. */
  ghost predicate ValidDigest(sha256: Digest) {
    forall t :: IsSha256Like(sha256, t)
  }

  /** `hash_token`: the hex encoding of the digest of the token's bytes. */
  function HashToken(sha256: Digest, token: string): (h: string)
    requires IsSha256Like(sha256, token)
    ensures IsTokenText(h)
  {
    HexEncode(sha256(token))
  }

  /**
   * A token hash never equals a token that is not 64 lower-case hex
   * characters, so stored hashes cannot be mistaken for such tokens.
   */
  lemma HashDiffersFromInput(sha256: Digest, token: string)
    requires IsSha256Like(sha256, token)
    requires !IsTokenText(token)
    ensures HashToken(sha256, token) != token
  {
  }
}
