/**
 * The page-token codec: a token is `<hex digest of the timestamp text>:<timestamp text>`.
 * The keyed digest (HMAC-SHA256 with the server's salt) is the parameter `hmac`;
 * the only thing the codec relies on is that its output is lowercase hex.
 */
module PageToken {
  import opened Wrappers
  import opened JsNumber

  /** A keyed digest of a message, as hex text. */
  type Hmac = string -> string

  predicate IsLowerHex(s: string)
  {
    forall i :: 0 <= i < |s| ==> ('0' <= s[i] <= '9' || 'a' <= s[i] <= 'f')
  }

  /** What `digest("hex")` guarantees: every digest is lowercase hex, so it holds no `:`. */
  ghost predicate HexDigest(hmac: Hmac)
  {
    forall m :: IsLowerHex(hmac(m))
  }

  /** `hashPageToken`: the digest of the number's decimal text. */
  function HashPageToken(hmac: Hmac, timestamp: Number): (digest: string)
    ensures HexDigest(hmac) ==> IsLowerHex(digest) && ':' !in digest
  {
    HexHasNoColon(hmac(ToString(timestamp)));
    hmac(ToString(timestamp))
  }

  /** `generatePageToken`: the digest, a colon, and the timestamp's decimal text. */
  function GeneratePageToken(hmac: Hmac, timestamp: int): (token: string)
    ensures HexDigest(hmac) ==>
      Split(token) == [HashPageToken(hmac, Integral(timestamp)), ToString(Integral(timestamp))]
  {
    var digest := HashPageToken(hmac, Integral(timestamp));
    var text := ToString(Integral(timestamp));
    SplitNoColon(digest);
    SplitNoColon(text);
    SplitAppend(digest, text);
    digest + ":" + text
  }

  /** The text destructuring gives as the second field; a missing one is `undefined`. */
  function TimestampField(token: string): (field: string)
    ensures ':' !in token ==> field == "undefined"
    ensures ':' in token ==> ':' !in field && field <= token[|Split(token)[0]| + 1..]
    ensures ':' in token ==>
      var start := |Split(token)[0]| + 1;
      start + |field| == |token| || token[start + |field|] == ':'
  {
    var fields := Split(token);
    SplitNoColon(token);
    if |fields| >= 2 then
      var rest := Join(fields[1..]);
      assert token == fields[0] + ":" + rest;
      assert fields[1] <= rest;
      assert token[|fields[0]| + 1..] == rest;
      fields[1]
    else
      "undefined"
  }

  /**
   * `parsePageToken`: the number in the second field when the first field is its
   * digest, `None` (the source's `null`) otherwise.
   */
  function ParsePageToken(hmac: Hmac, token: string): (r: Option<Number>)
    ensures r.Some? ==> Split(token)[0] == HashPageToken(hmac, r.value)
    ensures r.Some? ==> r.value == ParseInt(TimestampField(token))
    ensures r.None? <==> Split(token)[0] != HashPageToken(hmac, ParseInt(TimestampField(token)))
  {
    var timestamp := ParseInt(TimestampField(token));
    if HashPageToken(hmac, timestamp) == Split(token)[0] then Some(timestamp) else None
  }

  lemma HexHasNoColon(s: string)
    ensures IsLowerHex(s) ==> ':' !in s
  {
  }

  /** How a generated token splits: the digest, then the timestamp text. */
  lemma SplitGenerated(hmac: Hmac, timestamp: int, tail: string)
    requires HexDigest(hmac)
    ensures Split(GeneratePageToken(hmac, timestamp) + tail)
         == [HashPageToken(hmac, Integral(timestamp))] + Split(ToString(Integral(timestamp)) + tail)
  {
    var digest := HashPageToken(hmac, Integral(timestamp));
    var text := ToString(Integral(timestamp));
    HexHasNoColon(hmac(text));
    SplitNoColon(digest);
    SplitAppend(digest, text + tail);
    assert GeneratePageToken(hmac, timestamp) + tail == digest + ":" + (text + tail);
  }

  /** Round trip: every generated token parses back to the timestamp it was made from. */
  lemma RoundTrip(hmac: Hmac, timestamp: int)
    requires HexDigest(hmac)
    ensures ParsePageToken(hmac, GeneratePageToken(hmac, timestamp)) == Some(Integral(timestamp))
  {
    var token := GeneratePageToken(hmac, timestamp);
    var text := ToString(Integral(timestamp));
    SplitGenerated(hmac, timestamp, []);
    assert token + [] == token && text + [] == text;
    SplitNoColon(text);
    assert TimestampField(token) == text;
    ParseIntToString(Integral(timestamp));
  }

  /**
   * Anything appended to a generated token that does not begin with a digit is
   * ignored: such a token is still accepted, with the same timestamp.
   */
  lemma AcceptsTrailingText(hmac: Hmac, timestamp: int, tail: string)
    requires HexDigest(hmac)
    requires tail == [] || !IsDigit(tail[0])
    ensures ParsePageToken(hmac, GeneratePageToken(hmac, timestamp) + tail) == Some(Integral(timestamp))
  {
    var token := GeneratePageToken(hmac, timestamp) + tail;
    var text := ToString(Integral(timestamp));
    SplitGenerated(hmac, timestamp, tail);
    SplitColonFreePrefix(text, tail);
    var first := Split(tail)[0];
    assert TimestampField(token) == text + first;
    assert first == [] || first[0] == tail[0];
    ParseIntIgnoresTail(Integral(timestamp), first);
  }

  /** Fields after the second one play no part in the result. */
  lemma IgnoresExtraFields(hmac: Hmac, token: string, extra: string)
    requires |Split(token)| >= 2
    ensures ParsePageToken(hmac, token + ":" + extra) == ParsePageToken(hmac, token)
  {
    SplitAppend(token, extra);
  }

  /** A token whose first field is not lowercase hex is never accepted. */
  lemma RejectsNonHexSignature(hmac: Hmac, token: string)
    requires HexDigest(hmac)
    requires !IsLowerHex(Split(token)[0])
    ensures ParsePageToken(hmac, token) == None
  {
    var n := ParseInt(TimestampField(token));
    assert IsLowerHex(hmac(ToString(n)));
  }

  /**
   * Changing the timestamp of a generated token makes it fail, unless the
   * digest of the new timestamp collides with that of the old one.
   */
  lemma RejectsAlteredTimestamp(hmac: Hmac, timestamp: int, forged: int)
    requires HexDigest(hmac)
    requires HashPageToken(hmac, Integral(forged)) != HashPageToken(hmac, Integral(timestamp))
    ensures ParsePageToken(hmac, HashPageToken(hmac, Integral(timestamp)) + ":" + ToString(Integral(forged))) == None
  {
    var digest := HashPageToken(hmac, Integral(timestamp));
    var text := ToString(Integral(forged));
    HexHasNoColon(hmac(ToString(Integral(timestamp))));
    SplitNoColon(digest);
    SplitAppend(digest, text);
    ParseIntToString(Integral(forged));
    assert Split(text)[0] <= text;
    SplitNoColon(text);
  }

  /**
   * Decoding is not injective: a `+` in front of the timestamp text is accepted
   * and yields the same timestamp as the generated token.
   */
  lemma AcceptsExplicitPlusSign(hmac: Hmac, timestamp: nat)
    requires HexDigest(hmac)
    ensures ParsePageToken(hmac, HashPageToken(hmac, Integral(timestamp)) + ":+" + Decimal(timestamp))
         == Some(Integral(timestamp))
  {
    var digest := HashPageToken(hmac, Integral(timestamp));
    var text := "+" + Decimal(timestamp);
    HexHasNoColon(hmac(ToString(Integral(timestamp))));
    SplitNoColon(digest);
    assert digest + ":+" + Decimal(timestamp) == digest + ":" + text;
    SplitAppend(digest, text);
    assert ':' !in text by {
      assert AllDigits(Decimal(timestamp));
    }
    SplitNoColon(text);
    assert TimestampField(digest + ":" + text) == text;
    assert !IsStrWhiteSpace(text[0]) && text[1..] == Decimal(timestamp);
    LeadingDigitsOfDigits(Decimal(timestamp));
    DecimalValue(timestamp);
  }
}
