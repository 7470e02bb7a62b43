/**
 The pure string work behind the Android handoff in `performRedirect`:
 stripping a leading `http://` or `https://`, wrapping the remainder in an
 `intent://` URL addressed to Chrome, and the case-insensitive search for
 `Android` in the user-agent string.
 */
module Handoff {

  datatype Option<T> = None | Some(value: T)

  const HTTP: string := "http://"
  const HTTPS: string := "https://"

  /** The fixed head and tail of every handoff URL. */
  const INTENT_PREFIX: string := "intent://"
  const INTENT_SUFFIX: string := "#Intent;scheme=https;package=com.android.chrome;end"

  /** The platform marker searched for in the user-agent string. */
  const ANDROID: string := "Android"

  // ---------------------------------------------------------------------------
  // Scheme stripping: url.replace(/^https?:\/\//, '')
  // ---------------------------------------------------------------------------

  /** The anchored, case-sensitive test that `^https?:\/\/` performs. */
  predicate HasWebScheme(url: string) {
    HTTP <= url || HTTPS <= url
  }

  /** At most one of the two prefixes can match: the fifth character is `:` in one and `s` in the other. */
  lemma SchemesExclusive(url: string)
    ensures HTTP <= url ==> !(HTTPS <= url)
  {
    if HTTP <= url {
      assert url[4] == ':';
    }
  }

  /** The URL with one leading `http://` or `https://` removed, or unchanged when it has neither. */
  function StripScheme(url: string): (rest: string)
    ensures rest == url <==> !HasWebScheme(url)
    ensures HTTP <= url ==> url == HTTP + rest
    ensures HTTPS <= url ==> url == HTTPS + rest
  {
    SchemesExclusive(url);
    if HTTP <= url then url[|HTTP|..]
    else if HTTPS <= url then url[|HTTPS|..]
    else url
  }

  /** Exactly the one prefix at the front is removed; whatever follows it, even another scheme, stays. */
  lemma StripRemovesOnePrefix(scheme: string, rest: string)
    requires scheme == HTTP || scheme == HTTPS
    ensures StripScheme(scheme + rest) == rest
  {
    SchemesExclusive(scheme + rest);
    assert (scheme + rest)[..|scheme|] == scheme;
  }

  /** `http://https://x` loses only its first prefix, so stripping is not idempotent. */
  lemma StripNotIdempotent()
    ensures StripScheme(HTTP + HTTPS + "x") == HTTPS + "x"
    ensures StripScheme(StripScheme(HTTP + HTTPS + "x")) == "x"
  {
    StripRemovesOnePrefix(HTTP, HTTPS + "x");
    assert HTTP + HTTPS + "x" == HTTP + (HTTPS + "x");
    StripRemovesOnePrefix(HTTPS, "x");
  }

  /** The match is case-sensitive: an upper-case scheme is left in place. */
  lemma StripKeepsUpperCaseScheme(rest: string)
    ensures StripScheme("HTTP://" + rest) == "HTTP://" + rest
    ensures StripScheme("HTTPS://" + rest) == "HTTPS://" + rest
  {
    assert ("HTTP://" + rest)[0] == 'H';
    assert ("HTTPS://" + rest)[0] == 'H';
  }

  /** The match is anchored: a scheme that does not start the URL is left in place. */
  lemma StripOnlyAtStart(lead: string, scheme: string, rest: string)
    requires lead != [] && !HasWebScheme(lead)
    requires scheme == HTTP || scheme == HTTPS
    ensures StripScheme(lead + scheme + rest) == lead + scheme + rest
  {
    var url := lead + scheme + rest;
    if |lead| >= |HTTPS| {
      assert url[..|HTTP|] == lead[..|HTTP|];
      assert url[..|HTTPS|] == lead[..|HTTPS|];
    } else {
      // The scheme's leading `h` sits at offset |lead|, where neither prefix has one.
      assert url[|lead|] == 'h';
      assert url[..|lead|] == lead;
    }
  }

  // ---------------------------------------------------------------------------
  // Handoff URL: `intent://${cleanUrl}#Intent;scheme=https;package=com.android.chrome;end`
  // ---------------------------------------------------------------------------

  /** The Chrome intent URL for `url`. */
  function IntentUrl(url: string): (handoff: string)
    ensures INTENT_PREFIX <= handoff
    ensures |handoff| >= |INTENT_PREFIX| + |INTENT_SUFFIX|
    ensures handoff[|handoff| - |INTENT_SUFFIX|..] == INTENT_SUFFIX
  {
    INTENT_PREFIX + StripScheme(url) + INTENT_SUFFIX
  }

  /** Recognises a handoff URL and gives back what sits between the fixed head and tail. */
  function ParseIntent(handoff: string): (middle: Option<string>)
    ensures middle.Some? <==>
              |handoff| >= |INTENT_PREFIX| + |INTENT_SUFFIX| && INTENT_PREFIX <= handoff &&
              handoff[|handoff| - |INTENT_SUFFIX|..] == INTENT_SUFFIX
    ensures middle.Some? ==> handoff == INTENT_PREFIX + middle.value + INTENT_SUFFIX
  {
    if |handoff| >= |INTENT_PREFIX| + |INTENT_SUFFIX| && INTENT_PREFIX <= handoff &&
       handoff[|handoff| - |INTENT_SUFFIX|..] == INTENT_SUFFIX
    then
      var middle := handoff[|INTENT_PREFIX|..|handoff| - |INTENT_SUFFIX|];
      assert handoff == handoff[..|INTENT_PREFIX|] + middle + handoff[|handoff| - |INTENT_SUFFIX|..];
      Some(middle)
    else None
  }

  /** Removing the fixed head and tail from a handoff URL gives back exactly the stripped URL. */
  lemma IntentRoundTrip(url: string)
    ensures ParseIntent(IntentUrl(url)) == Some(StripScheme(url))
  {
    var handoff := IntentUrl(url);
    var middle := StripScheme(url);
    assert handoff[|INTENT_PREFIX|..|handoff| - |INTENT_SUFFIX|] == middle;
  }

  /** Two URLs share a handoff URL exactly when they agree once their scheme is stripped. */
  lemma IntentUrlSameIffSameStripped(u1: string, u2: string)
    ensures IntentUrl(u1) == IntentUrl(u2) <==> StripScheme(u1) == StripScheme(u2)
  {
    if IntentUrl(u1) == IntentUrl(u2) {
      IntentRoundTrip(u1);
      IntentRoundTrip(u2);
    }
  }

  /** `scheme=https` is fixed, so `http://` and `https://` addresses hand off to the same URL. */
  lemma IntentIgnoresScheme(rest: string)
    ensures IntentUrl(HTTP + rest) == IntentUrl(HTTPS + rest) == INTENT_PREFIX + rest + INTENT_SUFFIX
  {
    StripRemovesOnePrefix(HTTP, rest);
    StripRemovesOnePrefix(HTTPS, rest);
  }

  // ---------------------------------------------------------------------------
  // Platform test: /Android/i.test(navigator.userAgent)
  // ---------------------------------------------------------------------------

  /** Case folding of the regular expression's `i` flag, restricted to ASCII letters. */
  function LowerAscii(c: char): (d: char)
    ensures 'A' <= c <= 'Z' ==> 'a' <= d <= 'z' && d as int == c as int + 32
    ensures !('A' <= c <= 'Z') ==> d == c
  {
    if 'A' <= c <= 'Z' then (c as int + 32) as char else c
  }

  /**
   ASCII folding agrees with the `i` flag on the letters of `Android`: a
   character matches a letter of the marker exactly when it is that letter in
   small or capital form.
   */
  lemma MarkerLetterMatch(c: char, k: nat)
    requires k < |ANDROID|
    ensures LowerAscii(c) == LowerAscii(ANDROID[k]) <==>
              c == LowerAscii(ANDROID[k]) || c as int == LowerAscii(ANDROID[k]) as int - 32
  {
  }

  /** `pat` occurs in `s` at offset `i`, ignoring the case of ASCII letters. */
  predicate MatchesAt(s: string, pat: string, i: nat)
    requires i + |pat| <= |s|
  {
    forall k :: 0 <= k < |pat| ==> LowerAscii(s[i + k]) == LowerAscii(pat[k])
  }

  /** `pat` occurs somewhere in `s`, ignoring the case of ASCII letters. */
  ghost predicate ContainsIgnoringCase(s: string, pat: string) {
    exists i: nat :: i + |pat| <= |s| && MatchesAt(s, pat, i)
  }

  /** Searches `s` for `pat` at every offset from `from` on, as an unanchored regular expression does. */
  function SearchFrom(s: string, pat: string, from: nat): (found: bool)
    ensures found <==> exists i: nat :: from <= i && i + |pat| <= |s| && MatchesAt(s, pat, i)
    decreases |s| + 1 - from
  {
    if from + |pat| > |s| then false
    else if MatchesAt(s, pat, from) then true
    else SearchFrom(s, pat, from + 1)
  }

  /** The platform test of `performRedirect`. */
  function IsAndroid(userAgent: string): (android: bool)
    ensures android <==> ContainsIgnoringCase(userAgent, ANDROID)
  {
    SearchFrom(userAgent, ANDROID, 0)
  }

  /** Every character of `s` passed through `LowerAscii`. */
  function LowerAll(s: string): (t: string)
    ensures |t| == |s|
    ensures forall i :: 0 <= i < |s| ==> t[i] == LowerAscii(s[i])
  {
    seq(|s|, i requires 0 <= i < |s| => LowerAscii(s[i]))
  }

  /** The test does not depend on the case of the user-agent string. */
  lemma IsAndroidIgnoresCase(userAgent: string)
    ensures IsAndroid(LowerAll(userAgent)) == IsAndroid(userAgent)
  {
    var lowered := LowerAll(userAgent);
    forall j | 0 <= j < |userAgent|
      ensures LowerAscii(lowered[j]) == LowerAscii(userAgent[j])
    {
      var c := userAgent[j];
      assert LowerAscii(LowerAscii(c)) == LowerAscii(c);
    }
    forall i: nat | i + |ANDROID| <= |userAgent|
      ensures MatchesAt(lowered, ANDROID, i) == MatchesAt(userAgent, ANDROID, i)
    {
    }
  }

  /** Any user-agent that carries the marker in any letter case is recognised. */
  lemma IsAndroidWhenMarkerPresent(before: string, marker: string, after: string)
    requires |marker| == |ANDROID|
    requires forall k :: 0 <= k < |marker| ==> LowerAscii(marker[k]) == LowerAscii(ANDROID[k])
    ensures IsAndroid(before + marker + after)
  {
    var ua := before + marker + after;
    var i: nat := |before|;
    forall k | 0 <= k < |ANDROID| ensures LowerAscii(ua[i + k]) == LowerAscii(ANDROID[k]) {
      assert ua[i + k] == marker[k];
    }
    assert MatchesAt(ua, ANDROID, i);
  }

  /** A user-agent shorter than the marker never matches. */
  lemma ShortUserAgentIsNotAndroid(userAgent: string)
    requires |userAgent| < |ANDROID|
    ensures !IsAndroid(userAgent)
  {
  }
}
