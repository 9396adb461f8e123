/**
 * Challenge identifiers and API keys (vimgolf/core.py, with the same code in
 * vimgolf/vimgolf.py): validation by a prefix regular-expression match,
 * expansion of `+` shortcuts through the id lookup file, and the leaderboard
 * address of a challenge.
 */
module Core {
  import opened Common

  /** Python's `\w` (and `\d`, which it contains) restricted to ASCII; see README. */
  predicate IsWordChar(c: char) {
    ('a' <= c <= 'z') || ('A' <= c <= 'Z') || ('0' <= c <= '9') || c == '_'
  }

  const CHALLENGE_ID_LENGTH: nat := 24
  const API_KEY_LENGTH: nat := 32

  /**
   * re.match(r'[\w\d]{n}', s): the text matched by n word characters at the
   * start of s, or None when the match fails.  Anything after them is ignored.
   */
  function MatchWordChars(s: string, n: nat): (m: Option<string>)
    ensures m.Some? ==> |m.value| == n
    decreases n
  {
    if n == 0 then Some("")
    else if s == [] || !IsWordChar(s[0]) then None
    else
      match MatchWordChars(s[1..], n - 1)
      case None => None
      case Some(rest) => Some([s[0]] + rest)
  }

  /** The match succeeds exactly when the first n characters exist and are word characters, and it matches them. */
  lemma {:induction false} MatchWordCharsIff(s: string, n: nat)
    ensures MatchWordChars(s, n).Some? <==> |s| >= n && forall i :: 0 <= i < n ==> IsWordChar(s[i])
    ensures MatchWordChars(s, n).Some? ==> MatchWordChars(s, n).value == s[..n]
    decreases n
  {
    if n > 0 && s != [] {
      MatchWordCharsIff(s[1..], n - 1);
      assert forall i :: 1 <= i < n && i < |s| ==> s[i] == s[1..][i - 1];
      if MatchWordChars(s, n).Some? {
        assert s[..n] == [s[0]] + s[1..][..n - 1];
      }
    }
  }

  /** validate_challenge_id: None is rejected; otherwise the 24-character prefix match. */
  function ValidateChallengeId(id: Option<string>): (m: Option<string>)
    ensures id.None? ==> m.None?
  {
    if id.None? then None else MatchWordChars(id.value, CHALLENGE_ID_LENGTH)
  }

  /** validate_api_key: None is rejected; otherwise the 32-character prefix match. */
  function ValidateApiKey(key: Option<string>): (m: Option<string>)
    ensures key.None? ==> m.None?
  {
    if key.None? then None else MatchWordChars(key.value, API_KEY_LENGTH)
  }

  /** A challenge id is accepted exactly when its first 24 characters are word characters. */
  lemma ChallengeIdAccepted(s: string)
    ensures ValidateChallengeId(Some(s)).Some? <==>
      |s| >= CHALLENGE_ID_LENGTH && forall i :: 0 <= i < CHALLENGE_ID_LENGTH ==> IsWordChar(s[i])
  {
    MatchWordCharsIff(s, CHALLENGE_ID_LENGTH);
  }

  /** An API key is accepted exactly when its first 32 characters are word characters. */
  lemma ApiKeyAccepted(s: string)
    ensures ValidateApiKey(Some(s)).Some? <==>
      |s| >= API_KEY_LENGTH && forall i :: 0 <= i < API_KEY_LENGTH ==> IsWordChar(s[i])
  {
    MatchWordCharsIff(s, API_KEY_LENGTH);
  }

  /** The match is a prefix match: whatever follows an accepted text is accepted too, with the same match. */
  lemma {:induction false} MatchIgnoresSuffix(s: string, t: string, n: nat)
    requires MatchWordChars(s, n).Some?
    ensures MatchWordChars(s + t, n) == MatchWordChars(s, n)
    decreases n
  {
    if n > 0 {
      assert (s + t)[1..] == s[1..] + t;
      MatchIgnoresSuffix(s[1..], t, n - 1);
    }
  }

  /** An id of 25 word characters is accepted although ids have 24. */
  lemma LongerIdAccepted(s: string, c: char)
    requires ValidateChallengeId(Some(s)).Some?
    ensures ValidateChallengeId(Some(s + [c])).Some?
  {
    MatchIgnoresSuffix(s, [c], CHALLENGE_ID_LENGTH);
  }

  const EXPANSION_PREFIX: string := "+"

  /**
   * expand_challenge_id: an id starting with `+` names an entry of the
   * lookup; when the entry is missing the id is returned as it is.
   */
  function ExpandChallengeId(id: string, lookup: map<string, string>): (r: string)
    ensures !StartsWith(id, EXPANSION_PREFIX) ==> r == id
    ensures r != id ==> StartsWith(id, EXPANSION_PREFIX) && id[1..] in lookup && r == lookup[id[1..]]
  {
    if StartsWith(id, EXPANSION_PREFIX) && id[1..] in lookup then lookup[id[1..]] else id
  }

  /** Expansion is a lookup, not a rewrite: a present entry is returned whatever it holds. */
  lemma ExpandFindsEntry(key: string, lookup: map<string, string>)
    requires key in lookup
    ensures ExpandChallengeId(EXPANSION_PREFIX + key, lookup) == lookup[key]
  {
    assert (EXPANSION_PREFIX + key)[1..] == key;
  }

  /** Expanding twice is expanding once when no entry of the lookup is itself a shortcut. */
  lemma ExpandIdempotent(id: string, lookup: map<string, string>)
    requires forall k :: k in lookup ==> !StartsWith(lookup[k], EXPANSION_PREFIX)
    ensures ExpandChallengeId(ExpandChallengeId(id, lookup), lookup) == ExpandChallengeId(id, lookup)
  {
  }

  const GOLF_HOST: string := "https://www.vimgolf.com"

  /** get_challenge_url: the challenge's page under the host (see README for urljoin). */
  function ChallengeUrl(id: string): (url: string)
    ensures StartsWith(url, GOLF_HOST + "/challenges/")
    ensures url[|GOLF_HOST + "/challenges/"|..] == id
  {
    GOLF_HOST + "/challenges/" + id
  }

  /** Different challenges have different pages. */
  lemma ChallengeUrlInjective(a: string, b: string)
    requires ChallengeUrl(a) == ChallengeUrl(b)
    ensures a == b
  {
    assert a == ChallengeUrl(a)[|GOLF_HOST + "/challenges/"|..];
  }
}
