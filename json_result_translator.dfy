/**
 * Extraction of a JSON payload from an agent reply that may wrap it in a
 * fenced block: a "```" delimiter, an optional "json" tag in any letter case,
 * the payload, and a closing "```" that may be missing.
 */
module JsonResultTranslator {
  import opened Runtime
  import opened Strings

  const LiteralDelimiter: String := "```"
  const JsonPrefix: String := "json"

  /** Index of the first delimiter (ordinal search), or -1. */
  function FirstFence(x: String): int {
    IndexOf(x, LiteralDelimiter, 0, false)
  }

  /** The reply opens a fenced block but fewer than four characters follow the delimiter. */
  predicate OpeningFenceTooShort(x: String) {
    FirstFence(x) >= 0 && |x| < FirstFence(x) + |LiteralDelimiter| + |JsonPrefix|
  }

  /** `s` carries the language tag "json", in any letter case. */
  predicate IsJsonTag(s: String) {
    Equals(JsonPrefix, s, true)
  }

  /**
   * A text that can be followed by a delimiter without creating an earlier one:
   * it contains no delimiter and does not end with a backtick.
   */
  predicate Closable(b: String) {
    !Contains(b, LiteralDelimiter, false) && (|b| == 0 || b[|b| - 1] != '`')
  }

  /**
   * The text handed to the JSON parser. Without a delimiter the whole reply;
   * otherwise what follows the first delimiter (and its tag) up to the next
   * delimiter or the end. Reading the tag throws when fewer than four
   * characters follow the opening delimiter.
   */
  function ExtractJson(result: String): (r: Result<String>)
    ensures !Contains(result, LiteralDelimiter, false) ==> r == Ok(result)
    ensures r.Err? <==> OpeningFenceTooShort(result)
    ensures r.Err? ==> r.error == ArgumentOutOfRange
    ensures r.Ok? ==> |r.value| <= |result|
  {
    var startIndex := IndexOf(result, LiteralDelimiter, 0, false);
    if startIndex < 0 then Ok(result)
    else
      var afterFence := startIndex + |LiteralDelimiter|;
      var tag :- Substring(result, afterFence, |JsonPrefix|);
      var bodyStart := if IsJsonTag(tag) then afterFence + |JsonPrefix| else afterFence;
      var closing := IndexOf(result, LiteralDelimiter, bodyStart, true);
      var endIndex := if closing < 0 then |result| else closing;
      Substring(result, bodyStart, endIndex - bodyStart)
  }

  /**
   * The reply parsed as a `T`: absent (the C# default, null) for a null, empty
   * or white-space reply, without looking at it further; otherwise whatever the
   * deserialiser makes of the extracted text, including its exception.
   */
  function Translate<T>(result: Option<String>, deserialize: String -> Result<Option<T>>): (r: Result<Option<T>>)
    ensures IsNullOrWhiteSpace(result) ==> r == Ok(None)
    ensures !IsNullOrWhiteSpace(result) && OpeningFenceTooShort(result.value) ==> r == Err(ArgumentOutOfRange)
    ensures !IsNullOrWhiteSpace(result) && !Contains(result.value, LiteralDelimiter, false) ==> r == deserialize(result.value)
  {
    if IsNullOrWhiteSpace(result) then Ok(None)
    else
      var rawJson :- ExtractJson(result.value);
      deserialize(rawJson)
  }

  // ---------------------------------------------------------------------------
  // Where the body lies

  /** First index after the opening delimiter and, when present, its tag. */
  function BodyStart(x: String): (lo: nat)
    requires FirstFence(x) >= 0 && !OpeningFenceTooShort(x)
    ensures lo <= |x|
  {
    var afterFence := FirstFence(x) + |LiteralDelimiter|;
    if IsJsonTag(x[afterFence..afterFence + |JsonPrefix|]) then afterFence + |JsonPrefix| else afterFence
  }

  /**
   * In a fenced reply the output is the slice of the reply that starts after the
   * opening delimiter and tag and stops at the nearest delimiter, or at the end
   * of the reply when no delimiter follows.
   */
  lemma ExtractJsonFencedSlice(x: String)
    requires Contains(x, LiteralDelimiter, false) && !OpeningFenceTooShort(x)
    ensures ExtractJson(x).Ok?
    ensures var lo, b := BodyStart(x), ExtractJson(x).value;
      lo + |b| <= |x| && b == x[lo..lo + |b|]
      && (lo + |b| == |x| || MatchesAt(x, LiteralDelimiter, lo + |b|, false))
      && forall i :: lo <= i < lo + |b| ==> !MatchesAt(x, LiteralDelimiter, i, false)
  {
    ExtractJsonBody(x);
    IgnoreCaseIrrelevant(x, LiteralDelimiter, BodyStart(x));
  }

  /** Index of the closing delimiter at or after the body start, or the length of the reply. */
  function BodyEnd(x: String): (hi: nat)
    requires Contains(x, LiteralDelimiter, false) && !OpeningFenceTooShort(x)
    ensures BodyStart(x) <= hi <= |x|
  {
    var closing := IndexOf(x, LiteralDelimiter, BodyStart(x), true);
    if closing < 0 then |x| else closing
  }

  /** The fenced case of `ExtractJson`, unfolded once. */
  lemma ExtractJsonBody(x: String)
    requires Contains(x, LiteralDelimiter, false) && !OpeningFenceTooShort(x)
    ensures ExtractJson(x) == Ok(x[BodyStart(x)..BodyEnd(x)])
  {
  }

  /** The output never contains a delimiter. */
  lemma {:induction false} ExtractJsonFenceFree(x: String)
    requires ExtractJson(x).Ok?
    ensures !Contains(ExtractJson(x).value, LiteralDelimiter, false)
  {
    if Contains(x, LiteralDelimiter, false) {
      ExtractJsonFencedSlice(x);
      var lo, b := BodyStart(x), ExtractJson(x).value;
      if Contains(b, LiteralDelimiter, false) {
        var j := IndexOf(b, LiteralDelimiter, 0, false);
        MatchInSlice(x, lo, lo + |b|, LiteralDelimiter, j, false);
        assert false;
      }
    }
  }

  /** Extracting again changes nothing. */
  lemma ExtractJsonIdempotent(x: String)
    requires ExtractJson(x).Ok?
    ensures ExtractJson(ExtractJson(x).value) == ExtractJson(x)
  {
    ExtractJsonFenceFree(x);
  }

  /** The output is a contiguous piece of the input. */
  lemma ExtractJsonIsInfix(x: String)
    requires ExtractJson(x).Ok?
    ensures exists lo: nat :: lo + |ExtractJson(x).value| <= |x| && ExtractJson(x).value <= x[lo..]
  {
    var b := ExtractJson(x).value;
    if Contains(x, LiteralDelimiter, false) {
      ExtractJsonFencedSlice(x);
      var lo := BodyStart(x);
      assert b <= x[lo..];
    } else {
      assert b <= x[0..];
    }
  }

  // ---------------------------------------------------------------------------
  // Round trips

  /** No delimiter starts inside a closable text placed at `lo`. */
  lemma ClosableHasNoFence(x: String, lo: nat, b: String, i: nat)
    requires lo + |b| <= |x| && x[lo..lo + |b|] == b && Closable(b)
    requires lo <= i < lo + |b|
    ensures !MatchesAt(x, LiteralDelimiter, i, false)
  {
    if i + |LiteralDelimiter| <= lo + |b| {
      if IndexOf(b, LiteralDelimiter, i - lo, false) != i - lo {
        var k :| 0 <= k < |LiteralDelimiter| && !CharEquals(b[i - lo + k], LiteralDelimiter[k], false);
        assert b[i - lo + k] == x[i + k];
      }
    } else {
      var k := lo + |b| - 1 - i;
      assert x[i + k] == x[lo..lo + |b|][|b| - 1] == b[|b| - 1];
      assert LiteralDelimiter[k] == '`';
    }
  }

  /** A delimiter at `lo + |b|` after a closable text is the nearest one from `lo`. */
  lemma {:induction false} ClosedAfter(x: String, lo: nat, b: String, ignoreCase: bool)
    requires lo + |b| <= |x| && x[lo..lo + |b|] == b && Closable(b)
    requires MatchesAt(x, LiteralDelimiter, lo + |b|, false)
    ensures IndexOf(x, LiteralDelimiter, lo, ignoreCase) == lo + |b|
  {
    forall i | lo <= i < lo + |b| ensures !MatchesAt(x, LiteralDelimiter, i, false) {
      ClosableHasNoFence(x, lo, b, i);
    }
    IndexOfIsLeast(x, LiteralDelimiter, lo, lo + |b|, false);
    IgnoreCaseIrrelevant(x, LiteralDelimiter, lo);
  }

  /** A reply that starts with closable lead-in text and then a delimiter opens its block there. */
  lemma OpensAfterLead(x: String, lead: String)
    requires |lead| <= |x| && x[..|lead|] == lead && Closable(lead)
    requires MatchesAt(x, LiteralDelimiter, |lead|, false)
    ensures Contains(x, LiteralDelimiter, false) && FirstFence(x) == |lead|
  {
    assert x[0..|lead|] == lead;
    ClosedAfter(x, 0, lead, false);
  }

  /** A reply of closable lead-in text, a delimiter and a "json" tag has its body after the tag. */
  lemma TaggedReply(lead: String, tail: String)
    requires Closable(lead) && |tail| >= |JsonPrefix| && IsJsonTag(tail[..|JsonPrefix|])
    ensures var x := lead + LiteralDelimiter + tail;
      Contains(x, LiteralDelimiter, false) && !OpeningFenceTooShort(x)
      && BodyStart(x) == |lead| + 7 && x[|lead| + 7..] == tail[4..]
  {
    var x := lead + LiteralDelimiter + tail;
    var n := |lead|;
    assert x[..n] == lead;
    assert MatchesAt(x, LiteralDelimiter, n, false);
    OpensAfterLead(x, lead);
    assert x[n + 3..n + 7] == tail[..4];
  }

  /** A closable text at the body start followed by a delimiter is exactly the output. */
  lemma {:induction false} ExtractClosedBody(x: String, b: String)
    requires Contains(x, LiteralDelimiter, false) && !OpeningFenceTooShort(x)
    requires BodyStart(x) + |b| <= |x| && x[BodyStart(x)..BodyStart(x) + |b|] == b && Closable(b)
    requires MatchesAt(x, LiteralDelimiter, BodyStart(x) + |b|, false)
    ensures ExtractJson(x) == Ok(b)
  {
    var lo := BodyStart(x);
    ClosedAfter(x, lo, b, true);
    ExtractJsonBody(x);
  }

  /** With no delimiter after the body start, the output is the rest of the reply. */
  lemma {:induction false} ExtractUnclosedBody(x: String)
    requires Contains(x, LiteralDelimiter, false) && !OpeningFenceTooShort(x)
    requires !Contains(x[BodyStart(x)..], LiteralDelimiter, false)
    ensures ExtractJson(x) == Ok(x[BodyStart(x)..])
  {
    var lo := BodyStart(x);
    ExtractJsonFencedSlice(x);
    var r := ExtractJson(x).value;
    ContainsIff(x[lo..], LiteralDelimiter, false);
    MatchesAtSuffix(x, lo, LiteralDelimiter, |r|, false);
    assert lo + |r| == |x|;
    assert x[lo..lo + |r|] == x[lo..];
  }

  /**
   * A reply made of closable lead-in text, a delimiter and `rest`, where `rest`
   * holds `body` after `skip` tag characters and a delimiter after it.
   */
  lemma {:induction false} BlockAfterLead(lead: String, rest: String, skip: nat, body: String)
    requires Closable(lead) && Closable(body) && |rest| >= |JsonPrefix|
    requires skip == (if IsJsonTag(rest[..|JsonPrefix|]) then |JsonPrefix| else 0)
    requires skip + |body| <= |rest| && rest[skip..skip + |body|] == body
    requires MatchesAt(rest, LiteralDelimiter, skip + |body|, false)
    ensures ExtractJson(lead + LiteralDelimiter + rest) == Ok(body)
  {
    ReplyParts(lead, rest, skip, body);
    BlockAt(lead + LiteralDelimiter + rest, lead, skip, body);
  }

  /** `BlockAfterLead` on a reply given by the positions of its pieces. */
  lemma BlockAt(x: String, lead: String, skip: nat, body: String)
    requires Closable(lead) && Closable(body)
    requires |lead| + 7 <= |x| && x[..|lead|] == lead && MatchesAt(x, LiteralDelimiter, |lead|, false)
    requires skip == (if IsJsonTag(x[|lead| + 3..|lead| + 7]) then |JsonPrefix| else 0)
    requires var lo := |lead| + 3 + skip;
      lo + |body| <= |x| && x[lo..lo + |body|] == body && MatchesAt(x, LiteralDelimiter, lo + |body|, false)
    ensures ExtractJson(x) == Ok(body)
  {
    OpensAfterLead(x, lead);
    ExtractClosedBody(x, body);
  }

  /** Where the pieces of `lead + LiteralDelimiter + rest` lie. */
  lemma ReplyParts(lead: String, rest: String, skip: nat, body: String)
    requires |rest| >= |JsonPrefix| && skip + |body| <= |rest| && rest[skip..skip + |body|] == body
    requires MatchesAt(rest, LiteralDelimiter, skip + |body|, false)
    ensures var x, n := lead + LiteralDelimiter + rest, |lead|;
      n + 7 <= |x| && x[..n] == lead && MatchesAt(x, LiteralDelimiter, n, false)
      && x[n + 3..n + 7] == rest[..4]
      && x[n + 3 + skip..n + 3 + skip + |body|] == body
      && MatchesAt(x, LiteralDelimiter, n + 3 + skip + |body|, false)
  {
    var x, n := lead + LiteralDelimiter + rest, |lead|;
    var lo := n + 3 + skip;
    assert x[..n] == lead;
    assert x[n + 3..n + 7] == rest[..4];
    assert x[lo..lo + |body|] == body by {
      forall k | 0 <= k < |body| ensures x[lo..lo + |body|][k] == body[k] {
        assert body[k] == rest[skip..skip + |body|][k] == rest[skip + k];
      }
    }
    forall k | 0 <= k < |LiteralDelimiter|
      ensures CharEquals(x[lo + |body| + k], LiteralDelimiter[k], false)
    {
      assert x[lo + |body| + k] == rest[skip + |body| + k];
    }
  }

  /**
   * Wrapping a body in a fenced block whose tag is "json" in any letter case,
   * after any lead-in text and before any trailing text, and extracting gives
   * the body back.
   */
  lemma {:induction false} RoundTripTagged(lead: String, tag: String, body: String, trail: String)
    requires Closable(lead) && Closable(body) && IsJsonTag(tag)
    ensures ExtractJson(lead + LiteralDelimiter + tag + body + LiteralDelimiter + trail) == Ok(body)
  {
    var rest := tag + body + LiteralDelimiter + trail;
    assert lead + LiteralDelimiter + tag + body + LiteralDelimiter + trail == lead + LiteralDelimiter + rest;
    assert rest[..4] == tag;
    assert rest[4..4 + |body|] == body;
    assert MatchesAt(rest, LiteralDelimiter, 4 + |body|, false);
    BlockAfterLead(lead, rest, 4, body);
  }

  /**
   * Without a tag the round trip needs a non-empty body that does not itself
   * start with "json" in some letter case.
   */
  lemma {:induction false} RoundTripUntagged(lead: String, body: String, trail: String)
    requires Closable(lead) && Closable(body) && |body| > 0
    requires !(|body| >= |JsonPrefix| && IsJsonTag(body[..|JsonPrefix|]))
    ensures ExtractJson(lead + LiteralDelimiter + body + LiteralDelimiter + trail) == Ok(body)
  {
    var rest := body + LiteralDelimiter + trail;
    assert lead + LiteralDelimiter + body + LiteralDelimiter + trail == lead + LiteralDelimiter + rest;
    assert rest == body + (LiteralDelimiter + trail);
    UntaggedWindow(body, LiteralDelimiter + trail);
    assert rest[0..|body|] == body;
    assert MatchesAt(rest, LiteralDelimiter, |body|, false);
    BlockAfterLead(lead, rest, 0, body);
  }

  /** The four characters after the delimiter of an untagged block are not a "json" tag. */
  lemma UntaggedWindow(body: String, closing: String)
    requires |body| > 0 && !(|body| >= |JsonPrefix| && IsJsonTag(body[..|JsonPrefix|]))
    requires |closing| >= |LiteralDelimiter| && closing[..|LiteralDelimiter|] == LiteralDelimiter
    ensures !IsJsonTag((body + closing)[..|JsonPrefix|])
  {
    var w := (body + closing)[..4];
    if |body| >= 4 {
      assert w == body[..4];
    } else {
      assert w[|body|] == closing[0] == '`';
      assert !CharEquals(JsonPrefix[|body|], w[|body|], true);
    }
  }

  /** A missing closing delimiter is no error: the body runs to the end of the reply. */
  lemma {:induction false} UnclosedRunsToEnd(lead: String, tag: String, body: String)
    requires Closable(lead) && !Contains(body, LiteralDelimiter, false) && IsJsonTag(tag)
    ensures ExtractJson(lead + LiteralDelimiter + tag + body) == Ok(body)
  {
    var x := lead + LiteralDelimiter + tag + body;
    assert x == lead + LiteralDelimiter + (tag + body);
    assert (tag + body)[..4] == tag && (tag + body)[4..] == body;
    TaggedReply(lead, tag + body);
    ExtractUnclosedBody(x);
  }

  /** `IndexOf` from `from` looks only at the text from `from` on. */
  lemma {:induction false} IndexOfSameSuffix(s: String, t: String, pat: String, from: nat, ignoreCase: bool)
    requires from <= |s| && from <= |t| && s[from..] == t[from..]
    ensures IndexOf(s, pat, from, ignoreCase) == IndexOf(t, pat, from, ignoreCase)
    decreases |s| - from
  {
    assert |s| == |t|;
    if |s| >= from + |pat| {
      forall k | 0 <= k < |pat|
        ensures CharEquals(s[from + k], pat[k], ignoreCase) == CharEquals(t[from + k], pat[k], ignoreCase)
      {
        assert s[from..][k] == t[from..][k];
      }
      if !MatchesAt(s, pat, from, ignoreCase) {
        assert s[from + 1..] == s[from..][1..];
        assert t[from + 1..] == t[from..][1..];
        IndexOfSameSuffix(s, t, pat, from + 1, ignoreCase);
      }
    }
  }

  /** "```json", "```JSON" and "```Json" all open the same body. */
  lemma {:induction false} TagCaseInsensitive(lead: String, tag1: String, tag2: String, rest: String)
    requires Closable(lead) && IsJsonTag(tag1) && IsJsonTag(tag2)
    ensures ExtractJson(lead + LiteralDelimiter + tag1 + rest) == ExtractJson(lead + LiteralDelimiter + tag2 + rest)
  {
    var x1 := lead + LiteralDelimiter + tag1 + rest;
    var x2 := lead + LiteralDelimiter + tag2 + rest;
    assert x1 == lead + LiteralDelimiter + (tag1 + rest);
    assert x2 == lead + LiteralDelimiter + (tag2 + rest);
    assert (tag1 + rest)[..4] == tag1 && (tag1 + rest)[4..] == rest;
    assert (tag2 + rest)[..4] == tag2 && (tag2 + rest)[4..] == rest;
    TaggedReply(lead, tag1 + rest);
    TaggedReply(lead, tag2 + rest);
    ExtractJsonSameBody(x1, x2, |lead| + 7);
  }

  /** Two fenced replies whose bodies start at the same index and agree from there extract alike. */
  lemma ExtractJsonSameBody(x1: String, x2: String, lo: nat)
    requires Contains(x1, LiteralDelimiter, false) && !OpeningFenceTooShort(x1) && BodyStart(x1) == lo
    requires Contains(x2, LiteralDelimiter, false) && !OpeningFenceTooShort(x2) && BodyStart(x2) == lo
    requires x1[lo..] == x2[lo..]
    ensures ExtractJson(x1) == ExtractJson(x2)
  {
    IndexOfSameSuffix(x1, x2, LiteralDelimiter, lo, true);
    assert BodyEnd(x1) == BodyEnd(x2);
    SameSuffixSlice(x1, x2, lo, BodyEnd(x1));
    ExtractJsonBody(x1);
    ExtractJsonBody(x2);
  }

  // ---------------------------------------------------------------------------
  // Failures and edge cases

  /** Fewer than four characters after the opening delimiter make the tag read throw. */
  lemma ShortTailThrows()
    ensures ExtractJson("```") == Err(ArgumentOutOfRange)
    ensures ExtractJson("```{}") == Err(ArgumentOutOfRange)
    ensures ExtractJson("see ``````") == Err(ArgumentOutOfRange)
  {
    assert MatchesAt("```", LiteralDelimiter, 0, false);
    assert MatchesAt("```{}", LiteralDelimiter, 0, false);
    var x := "see ``````";
    assert Closable("see ") by {
      forall i: nat ensures !MatchesAt("see ", LiteralDelimiter, i, false) {
        if i < 2 {
          assert !CharEquals("see "[i], LiteralDelimiter[0], false);
        }
      }
      ContainsIff("see ", LiteralDelimiter, false);
    }
    assert x[..4] == "see ";
    assert MatchesAt(x, LiteralDelimiter, 4, false);
    OpensAfterLead(x, "see ");
  }

  /** A body ending in a backtick loses it: the closing delimiter is found one place early. */
  lemma TrailingBacktickIsLost()
    ensures ExtractJson("```jsona`````") == Ok("a")
  {
    var x := "```jsona`````";
    assert MatchesAt(x, LiteralDelimiter, 0, false);
    assert x[3..7] == "json";
    assert !CharEquals(x[7], LiteralDelimiter[0], true);
    assert MatchesAt(x, LiteralDelimiter, 8, false);
    IndexOfIsLeast(x, LiteralDelimiter, 7, 8, true);
    assert x[7..8] == "a";
  }

  /** A text without any backtick can be followed by a delimiter. */
  lemma NoBacktickClosable(b: String)
    requires '`' !in b
    ensures Closable(b)
  {
    forall i: nat ensures !MatchesAt(b, LiteralDelimiter, i, false) {
      if i < |b| {
        assert b[i] != '`';
        assert !CharEquals(b[i], LiteralDelimiter[0], false);
      }
    }
    ContainsIff(b, LiteralDelimiter, false);
  }

  /** A fenced reply hands the deserialiser exactly the body of the block. */
  lemma TranslateFenced<T>(lead: String, tag: String, body: String, trail: String, deserialize: String -> Result<Option<T>>)
    requires Closable(lead) && Closable(body) && IsJsonTag(tag)
    ensures Translate(Some(lead + LiteralDelimiter + tag + body + LiteralDelimiter + trail), deserialize) == deserialize(body)
  {
    var x := lead + LiteralDelimiter + tag + body + LiteralDelimiter + trail;
    assert x[|lead|] == '`' && !IsWhiteSpace(x[|lead|]);
    RoundTripTagged(lead, tag, body, trail);
  }
}
