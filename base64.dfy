/**
 * The recogniser `isBase64` of index.js: padded base64 text over the
 * alphabet of section 4 of RFC 4648, written as the anchored pattern
 *   ^([0-9a-zA-Z+/]{4})*(([0-9a-zA-Z+/]{2}==)|([0-9a-zA-Z+/]{3}=))?$
 * plus the guard that rejects an absent or empty value.
 */
module Base64 {
  import opened Wrappers

  /** One character of the class [0-9a-zA-Z+/]: the alphabet without the pad. */
  predicate IsAlphabetChar(c: char) {
    ('0' <= c <= '9') || ('a' <= c <= 'z') || ('A' <= c <= 'Z') || c == '+' || c == '/'
  }

  predicate AllAlphabet(s: string) {
    forall i :: 0 <= i < |s| ==> IsAlphabetChar(s[i])
  }

  /** `([0-9a-zA-Z+/]{4})*`: a run of whole four-character groups. */
  predicate Groups(s: string)
    decreases |s|
  {
    |s| == 0 || (|s| >= 4 && AllAlphabet(s[..4]) && Groups(s[4..]))
  }

  /** `([0-9a-zA-Z+/]{2}==)|([0-9a-zA-Z+/]{3}=)`: the optional padded final group. */
  predicate PaddedGroup(g: string) {
    && |g| == 4
    && IsAlphabetChar(g[0]) && IsAlphabetChar(g[1])
    && (IsAlphabetChar(g[2]) || g[2] == '=')
    && g[3] == '='
  }

  /** The whole anchored pattern: groups, then at most one padded group at the end. */
  predicate MatchesPattern(s: string) {
    Groups(s) || (|s| >= 4 && Groups(s[..|s| - 4]) && PaddedGroup(s[|s| - 4..]))
  }

  /** `isBase64(data)`: false for an absent or empty value, otherwise the pattern test. */
  function IsBase64(data: Option<string>): (b: bool)
    ensures b ==> data.Some? && |data.value| > 0
  {
    match data
    case None => false
    case Some(s) => |s| > 0 && MatchesPattern(s)
  }

  /**
   * A flat description of the accepted texts: a non-empty length that is a
   * multiple of four, alphabet characters everywhere except the last two
   * positions, which may also be '=', and a '=' in the next-to-last
   * position only when the last one is '=' too.
   */
  predicate WellFormed(s: string) {
    && |s| >= 4 && |s| % 4 == 0
    && (forall i :: 0 <= i < |s| - 2 ==> IsAlphabetChar(s[i]))
    && (IsAlphabetChar(s[|s| - 2]) || s[|s| - 2] == '=')
    && (IsAlphabetChar(s[|s| - 1]) || s[|s| - 1] == '=')
    && (s[|s| - 2] == '=' ==> s[|s| - 1] == '=')
  }

  /** A run of groups is exactly a text of alphabet characters whose length is a multiple of four. */
  lemma {:induction false} GroupsIff(s: string)
    ensures Groups(s) <==> |s| % 4 == 0 && AllAlphabet(s)
    decreases |s|
  {
    if |s| >= 4 {
      GroupsIff(s[4..]);
      assert AllAlphabet(s) <==> AllAlphabet(s[..4]) && AllAlphabet(s[4..]) by {
        if AllAlphabet(s[..4]) && AllAlphabet(s[4..]) {
          forall i | 0 <= i < |s| ensures IsAlphabetChar(s[i]) {
            if i < 4 { assert s[i] == s[..4][i]; } else { assert s[i] == s[4..][i - 4]; }
          }
        }
        if AllAlphabet(s) {
          forall i | 0 <= i < 4 ensures IsAlphabetChar(s[..4][i]) { assert s[..4][i] == s[i]; }
          forall i | 0 <= i < |s| - 4 ensures IsAlphabetChar(s[4..][i]) { assert s[4..][i] == s[i + 4]; }
        }
      }
    } else if 0 < |s| {
      assert !Groups(s);
    }
  }

  /** The recogniser accepts a text exactly when the text is well formed. */
  lemma IsBase64Iff(s: string)
    ensures IsBase64(Some(s)) <==> WellFormed(s)
  {
    var n := |s|;
    GroupsIff(s);
    if n >= 4 {
      var prefix, last := s[..n - 4], s[n - 4..];
      GroupsIff(prefix);
      assert forall i :: 0 <= i < n - 4 ==> s[i] == prefix[i];
      assert forall j :: 0 <= j < 4 ==> s[n - 4 + j] == last[j];
      if WellFormed(s) && s[n - 1] == '=' {
        assert AllAlphabet(prefix);
        assert PaddedGroup(last);
      }
    }
  }

  /**
   * What every accepted text looks like: a positive length that is a
   * multiple of four, only characters of [0-9a-zA-Z+/=], and '=' nowhere
   * but in the last two positions.
   */
  lemma AcceptedShape(s: string)
    requires IsBase64(Some(s))
    ensures |s| > 0 && |s| % 4 == 0
    ensures forall i :: 0 <= i < |s| ==> IsAlphabetChar(s[i]) || s[i] == '='
    ensures forall i :: 0 <= i < |s| && s[i] == '=' ==> |s| - 2 <= i
  {
    IsBase64Iff(s);
  }
}
