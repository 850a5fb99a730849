/**
 * The three regular expressions `ExtractUrlFromTitle` (BrowserDetector.cs) tries, written out as matchers.
 * `Regex.Match` returns the match that starts leftmost. For each pattern, whether it matches at a start index
 * and where that match ends follow from the pattern's shape: each pattern ends in a greedy run of non-space
 * characters (`[^\s]+` or `[^\s]*`) and every other piece of it is non-space too, so a match at `i` always
 * extends to the end of the run of non-space characters that begins at `i`; backtracking only decides
 * whether some split of that run fits the pattern.
 */
module UrlMatch {
  import opened Wrappers
  import opened Text

  datatype UrlPattern =
    | Absolute  // (https?://[^\s]+)
    | WwwHost   // (www\.[^\s]+\.[^\s]+)
    | HostPath  // ([^\s]+\.[a-z]{2,}/[^\s]*)

  /** The patterns in the order they are tried. */
  const UrlPatterns: seq<UrlPattern> := [Absolute, WwwHost, HostPath]

  /** The end of the run of non-space characters that starts at `i`. */
  function RunEnd(s: string, i: nat): (j: nat)
    requires i <= |s|
    ensures i <= j <= |s|
    ensures forall k | i <= k < j :: !IsWhiteSpace(s[k])
    ensures j == |s| || IsWhiteSpace(s[j])
    decreases |s| - i
  {
    if i == |s| || IsWhiteSpace(s[i]) then i else RunEnd(s, i + 1)
  }

  predicate IsLowerLetter(c: char) {
    'a' <= c <= 'z'
  }

  /** `https?://` at `i`, followed by a non-space character. */
  predicate HttpAt(s: string, i: nat) {
    (OccursAt(s, "https://", i) && i + 8 < |s| && !IsWhiteSpace(s[i + 8]))
    || (OccursAt(s, "http://", i) && i + 7 < |s| && !IsWhiteSpace(s[i + 7]))
  }

  /** No scheme starts at a character other than 'h'. */
  lemma NotHttpAt(s: string, i: nat)
    requires i < |s| && s[i] != 'h'
    ensures !HttpAt(s, i)
  {
    if i + 7 <= |s| {
      assert s[i..i + 7][0] == s[i];
    }
    if i + 8 <= |s| {
      assert s[i..i + 8][0] == s[i];
    }
  }

  /** The pattern has a match that starts at index `i`. */
  predicate MatchesAt(p: UrlPattern, s: string, i: nat)
    requires i <= |s|
  {
    var e := RunEnd(s, i);
    match p
    case Absolute => HttpAt(s, i)
    // "www.", at least one character, a dot, at least one character
    case WwwHost => OccursAt(s, "www.", i) && exists k | i + 4 < k < e - 1 :: s[k] == '.'
    // at least one character, a dot, two or more lower-case letters, a slash
    case HostPath =>
      exists k | i < k < e :: s[k] == '.' &&
        exists l | k + 2 < l < e :: s[l] == '/' && forall t | k < t < l :: IsLowerLetter(s[t])
  }

  /** The leftmost start at or after `from` where the pattern matches. */
  function FirstMatchFrom(p: UrlPattern, s: string, from: nat): (r: Option<nat>)
    requires from <= |s| + 1
    ensures r.Some? ==> from <= r.value <= |s| && MatchesAt(p, s, r.value)
    ensures r.Some? ==> forall j | from <= j < r.value :: !MatchesAt(p, s, j)
    ensures r.None? ==> forall j | from <= j <= |s| :: !MatchesAt(p, s, j)
    decreases |s| + 1 - from
  {
    if from == |s| + 1 then None
    else if MatchesAt(p, s, from) then Some(from)
    else FirstMatchFrom(p, s, from + 1)
  }

  /** `Regex.Match(s, p)`: the value of the leftmost match, if any. */
  function Match(p: UrlPattern, s: string): Option<string> {
    match FirstMatchFrom(p, s, 0)
    case None => None
    case Some(i) => Some(s[i..RunEnd(s, i)])
  }

  /** A match starts on a non-space character. */
  lemma MatchStartsRun(p: UrlPattern, s: string, i: nat)
    requires i <= |s| && MatchesAt(p, s, i)
    ensures i < RunEnd(s, i)
  {
    if p == Absolute {
      assert s[i] == 'h' by {
        if OccursAt(s, "https://", i) {
          assert s[i..i + 8][0] == s[i];
        } else {
          assert s[i..i + 7][0] == s[i];
        }
      }
    }
  }

  /** The value of a match is a non-empty substring of `s` without white space. */
  lemma MatchIsRun(p: UrlPattern, s: string)
    requires Match(p, s).Some?
    ensures var v := Match(p, s).value; v != [] && Contains(s, v) && forall k | 0 <= k < |v| :: !IsWhiteSpace(v[k])
  {
    var i := FirstMatchFrom(p, s, 0).value;
    MatchStartsRun(p, s, i);
    assert OccursAt(s, s[i..RunEnd(s, i)], i);
  }
}
