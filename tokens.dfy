/**
 * `parseToken`: splits an access token into its 28-character secret prefix
 * and its 9-character trailing fingerprint, with JavaScript `substr`
 * clamping and no validation of length or alphabet.
 */
module Tokens {
  import opened JsStrings

  datatype ParsedToken = ParsedToken(identical: string, token: string)

  const TokenLength := 28
  const IdenticalLength := 9

  /**
   * `identical` is the last nine characters of `s` (all of `s` when it is
   * shorter) and `token` the first 28 (all of `s` when it is shorter).
   */
  function ParseToken(s: string): (r: ParsedToken)
    ensures |r.identical| == Min(IdenticalLength, |s|) && EndsWith(s, r.identical)
    ensures |r.token| == Min(TokenLength, |s|) && StartsWith(s, r.token)
  {
    ParsedToken(Substr(s, -IdenticalLength, IdenticalLength), Substr(s, 0, TokenLength))
  }

  /** A generated 37-character token splits into two parts that concatenate back to it. */
  lemma ParseTokenRoundTrip(s: string)
    requires |s| == TokenLength + IdenticalLength
    ensures ParseToken(s).token + ParseToken(s).identical == s
    ensures |ParseToken(s).token| == TokenLength && |ParseToken(s).identical| == IdenticalLength
  {
    var r := ParseToken(s);
    assert r.token == s[..TokenLength];
    assert r.identical == s[TokenLength..];
    assert s == s[..TokenLength] + s[TokenLength..];
  }

  /** Longer input loses its middle; shorter input yields overlapping parts. */
  lemma ParseTokenShapes(s: string)
    ensures |s| > TokenLength + IdenticalLength ==> |ParseToken(s).token + ParseToken(s).identical| < |s|
    ensures |s| < TokenLength + IdenticalLength ==> |ParseToken(s).token + ParseToken(s).identical| > |s| || |s| == 0
  {
  }
}
