/**
 * The .NET string primitives the browser detector relies on, over `string`: white space, `Contains`,
 * `Replace(x, "")`, `Trim` and ASCII lower-casing, together with the subsequence relation used to state that
 * cleaning a title only ever deletes characters. A Dafny `string` is a sequence of Unicode scalar values,
 * compared ordinally; a .NET string is a sequence of UTF-16 code units, in which a character beyond U+FFFF
 * takes two. `Utf16Length` gives the .NET `Length` of a string.
 */
module Text {

  /**
   * The characters `Char.IsWhiteSpace` accepts, which is also the class `\s` of .NET regular expressions:
   * U+0009 to U+000D, U+0085 and the Unicode separators (categories Zs, Zl and Zp).
   */
  predicate IsWhiteSpace(c: char) {
    ('\U{0009}' <= c <= '\U{000D}') || c == ' ' || c == '\U{0085}' || c == '\U{00A0}' || c == '\U{1680}'
    || ('\U{2000}' <= c <= '\U{200A}') || c == '\U{2028}' || c == '\U{2029}' || c == '\U{202F}'
    || c == '\U{205F}' || c == '\U{3000}'
  }

  /** `p` occurs in `s` starting at index `i`. */
  predicate OccursAt(s: string, p: string, i: nat) {
    i + |p| <= |s| && s[i..i + |p|] == p
  }

  /** `s.Contains(p)`: an ordinal substring test. */
  predicate Contains(s: string, p: string) {
    exists i | 0 <= i <= |s| - |p| :: OccursAt(s, p, i)
  }

  /** `markers.Any(m => s.Contains(m))`. */
  predicate ContainsAny(s: string, markers: seq<string>) {
    exists m | m in markers :: Contains(s, m)
  }

  /**
   * `s.Replace(p, "")`: scanning from the left, every occurrence of `p` that does not overlap an earlier
   * removed one is deleted. .NET refuses an empty `p`.
   */
  function DeleteAll(s: string, p: string): string
    requires p != []
    decreases |s|
  {
    if |s| < |p| then s
    else if s[..|p|] == p then DeleteAll(s[|p|..], p)
    else [s[0]] + DeleteAll(s[1..], p)
  }

  /** `s.TrimStart()`: drops the leading white space. */
  function TrimStart(s: string): (r: string)
    ensures r == [] || !IsWhiteSpace(r[0])
    ensures (s == [] || !IsWhiteSpace(s[0])) ==> r == s
    ensures forall i | 0 <= i < |s| - |r| :: IsWhiteSpace(s[i])
    ensures |r| <= |s| && r == s[|s| - |r|..]
  {
    if s != [] && IsWhiteSpace(s[0]) then TrimStart(s[1..]) else s
  }

  /** `s.TrimEnd()`: drops the trailing white space. */
  function TrimEnd(s: string): (r: string)
    ensures r == [] || !IsWhiteSpace(r[|r| - 1])
    ensures (s == [] || !IsWhiteSpace(s[|s| - 1])) ==> r == s
    ensures forall i | |r| <= i < |s| :: IsWhiteSpace(s[i])
    ensures |r| <= |s| && r == s[..|r|]
  {
    if s != [] && IsWhiteSpace(s[|s| - 1]) then TrimEnd(s[..|s| - 1]) else s
  }

  /** `s.Trim()`: drops white space at both ends. */
  function Trim(s: string): (r: string)
    ensures r == [] || (!IsWhiteSpace(r[0]) && !IsWhiteSpace(r[|r| - 1]))
    ensures (s == [] || (!IsWhiteSpace(s[0]) && !IsWhiteSpace(s[|s| - 1]))) ==> r == s
    ensures TrimmedAt(s, r, |s| - |TrimStart(s)|)
  {
    TrimSlice(s, TrimStart(s), TrimEnd(TrimStart(s)));
    TrimEnd(TrimStart(s))
  }

  /** Trimming one end and then the other leaves a slice of `s` with only white space around it. */
  lemma TrimSlice(s: string, t: string, r: string)
    requires |t| <= |s| && t == s[|s| - |t|..] && forall k | 0 <= k < |s| - |t| :: IsWhiteSpace(s[k])
    requires |r| <= |t| && r == t[..|r|] && forall k | |r| <= k < |t| :: IsWhiteSpace(t[k])
    ensures TrimmedAt(s, r, |s| - |t|)
  {
    var i := |s| - |t|;
    assert s[i..][..|r|] == s[i..i + |r|];
    forall k | i + |r| <= k < |s| ensures IsWhiteSpace(s[k]) {
      assert s[k] == t[k - i];
    }
  }

  /** `r` is the part of `s` that starts at `i`, and everything of `s` before and after it is white space. */
  predicate TrimmedAt(s: string, r: string, i: int) {
    && 0 <= i <= |s| - |r|
    && r == s[i..i + |r|]
    && (forall k | 0 <= k < i :: IsWhiteSpace(s[k]))
    && (forall k | i + |r| <= k < |s| :: IsWhiteSpace(s[k]))
  }

  /** No upper-case ASCII letter. */
  predicate IsLowerCase(t: string) {
    forall i | 0 <= i < |t| :: !('A' <= t[i] <= 'Z')
  }

  /**
   * `ToLower` restricted to ASCII: 'A'..'Z' become 'a'..'z', everything else is kept. The result has no
   * upper-case letter, and a string without one is left as it is.
   */
  function AsciiLower(s: string): (r: string)
    ensures |r| == |s| && IsLowerCase(r)
    ensures IsLowerCase(s) ==> r == s
  {
    seq(|s|, i requires 0 <= i < |s| => if 'A' <= s[i] <= 'Z' then (s[i] - 'A' + 'a') as char else s[i])
  }

  /** `s.Length` in .NET: the number of UTF-16 code units, two for each character beyond U+FFFF. */
  function Utf16Length(s: string): (n: nat)
    ensures |s| <= n <= 2 * |s|
    decreases |s|
  {
    if s == [] then 0 else Utf16Length(s[..|s| - 1]) + (if s[|s| - 1] as int > 0xFFFF then 2 else 1)
  }

  /** A string within the Basic Multilingual Plane has one code unit per character. */
  lemma {:induction false} Utf16LengthBmp(s: string)
    requires forall i | 0 <= i < |s| :: s[i] as int <= 0xFFFF
    ensures Utf16Length(s) == |s|
    decreases |s|
  {
    if s != [] {
      Utf16LengthBmp(s[..|s| - 1]);
    }
  }

  /** `a` is obtained from `b` by deleting characters. */
  predicate IsSubsequence(a: string, b: string)
    decreases |b|
  {
    if b == [] then a == []
    else (a != [] && a[0] == b[0] && IsSubsequence(a[1..], b[1..])) || IsSubsequence(a, b[1..])
  }

  lemma {:induction false} EmptyIsSubsequence(b: string)
    ensures IsSubsequence([], b)
  {
    if b != [] {
      EmptyIsSubsequence(b[1..]);
    }
  }

  lemma {:induction false} SubsequenceLength(a: string, b: string)
    requires IsSubsequence(a, b)
    ensures |a| <= |b|
    decreases |b|
  {
    if b != [] {
      if a != [] && a[0] == b[0] && IsSubsequence(a[1..], b[1..]) {
        SubsequenceLength(a[1..], b[1..]);
      } else {
        SubsequenceLength(a, b[1..]);
      }
    }
  }

  lemma {:induction false} SubsequenceTransitive(a: string, b: string, c: string)
    requires IsSubsequence(a, b) && IsSubsequence(b, c)
    ensures IsSubsequence(a, c)
    decreases |c|
  {
    if c == [] {
    } else if IsSubsequence(b, c[1..]) {
      SubsequenceTransitive(a, b, c[1..]);
    } else {
      assert b != [] && b[0] == c[0] && IsSubsequence(b[1..], c[1..]);
      if a != [] && a[0] == b[0] && IsSubsequence(a[1..], b[1..]) {
        SubsequenceTransitive(a[1..], b[1..], c[1..]);
      } else {
        SubsequenceTransitive(a, b[1..], c[1..]);
      }
    }
  }

  /** A slice of `s` is a subsequence of it. */
  lemma {:induction false} SliceIsSubsequence(s: string, i: nat, j: nat)
    requires i <= j <= |s|
    ensures IsSubsequence(s[i..j], s)
    decreases |s|
  {
    if s == [] {
    } else if i == j {
      EmptyIsSubsequence(s);
    } else if i == 0 {
      SliceIsSubsequence(s[1..], 0, j - 1);
      assert s[i..j][1..] == s[1..][0..j - 1];
    } else {
      SliceIsSubsequence(s[1..], i - 1, j - 1);
      assert s[1..][i - 1..j - 1] == s[i..j];
    }
  }

  lemma TrimIsSubsequence(s: string)
    ensures IsSubsequence(Trim(s), s)
  {
    var r := Trim(s);
    var i := |s| - |TrimStart(s)|;
    var j := i + |r|;
    SliceIsSubsequence(s, i, j);
    assert s[i..j] == r;
  }

  /** What `Replace(p, "")` leaves is a subsequence of what it started from. */
  lemma {:induction false} DeleteAllIsSubsequence(s: string, p: string)
    requires p != []
    ensures IsSubsequence(DeleteAll(s, p), s)
    decreases |s|
  {
    if |s| < |p| {
      SliceIsSubsequence(s, 0, |s|);
      assert s[0..|s|] == s;
    } else if s[..|p|] == p {
      DeleteAllIsSubsequence(s[|p|..], p);
      SliceIsSubsequence(s, |p|, |s|);
      assert s[|p|..|s|] == s[|p|..];
      SubsequenceTransitive(DeleteAll(s, p), s[|p|..], s);
    } else {
      DeleteAllIsSubsequence(s[1..], p);
    }
  }

  /** `Replace(p, "")` on a string in which `p` does not occur returns it unchanged. */
  lemma {:induction false} DeleteAllAbsent(s: string, p: string)
    requires p != [] && !Contains(s, p)
    ensures DeleteAll(s, p) == s
    decreases |s|
  {
    if |s| >= |p| {
      assert !OccursAt(s, p, 0);
      assert !Contains(s[1..], p) by {
        forall i | 0 <= i <= |s[1..]| - |p| ensures !OccursAt(s[1..], p, i) {
          assert !OccursAt(s, p, i + 1);
          assert s[1..][i..i + |p|] == s[i + 1..i + 1 + |p|];
        }
      }
      DeleteAllAbsent(s[1..], p);
      assert s[..|p|] == s[0..|p|] != p;
      assert DeleteAll(s, p) == [s[0]] + DeleteAll(s[1..], p);
      assert [s[0]] + s[1..] == s;
    }
  }

  /** No occurrence starting in `x` means no occurrence starting in `x` without its first character. */
  lemma NoOccurrenceInTail(x: string, y: string, p: string)
    requires x != [] && forall i | 0 <= i < |x| :: !OccursAt(x + y, p, i)
    ensures forall i | 0 <= i < |x| - 1 :: !OccursAt(x[1..] + y, p, i)
  {
    var s := x + y;
    assert s[1..] == x[1..] + y;
    forall i | 0 <= i < |x| - 1 ensures !OccursAt(x[1..] + y, p, i) {
      assert !OccursAt(s, p, i + 1);
      if i + |p| <= |s| - 1 {
        assert s[1..][i..i + |p|] == s[i + 1..i + 1 + |p|];
      }
    }
  }

  /**
   * When `p` starts nowhere inside `x` and `y` is shorter than `p`, `Replace(p, "")` on `x + p + y` deletes
   * only the `p` after `x`, even when `x + y` joins into a new `p`.
   */
  lemma DeleteAllJoins(x: string, p: string, y: string)
    requires p != [] && |y| < |p|
    requires forall i | 0 <= i < |x| :: !OccursAt(x + (p + y), p, i)
    ensures DeleteAll(x + (p + y), p) == x + y
  {
    DeleteAllKeepsPrefix(x, p + y, p);
    assert (p + y)[..|p|] == p && (p + y)[|p|..] == y;
    DeleteAllShort(y, p);
  }

  /**
   * When no occurrence of `p` in `x + y` starts inside `x`, `Replace(p, "")` keeps `x` whole and works on `y`
   * alone.
   */
  lemma {:induction false} DeleteAllKeepsPrefix(x: string, y: string, p: string)
    requires p != []
    requires forall i | 0 <= i < |x| :: !OccursAt(x + y, p, i)
    ensures DeleteAll(x + y, p) == x + DeleteAll(y, p)
    decreases |x|
  {
    if x == [] {
      assert x + y == y;
    } else {
      var s := x + y;
      assert !OccursAt(s, p, 0);
      assert s[1..] == x[1..] + y;
      NoOccurrenceInTail(x, y, p);
      DeleteAllKeepsPrefix(x[1..], y, p);
      if |s| >= |p| {
        assert s[..|p|] != p;
        calc {
          DeleteAll(s, p);
          [s[0]] + DeleteAll(s[1..], p);
          [x[0]] + (x[1..] + DeleteAll(y, p));
          { assert [x[0]] + x[1..] == x; }
          x + DeleteAll(y, p);
        }
      } else {
        assert DeleteAll(s, p) == s;
        DeleteAllShort(y, p);
      }
    }
  }

  lemma DeleteAllShort(s: string, p: string)
    requires p != [] && |s| < |p|
    ensures DeleteAll(s, p) == s
  {
  }

  /** `Replace(p, "")` removes `p` itself completely. */
  lemma DeleteAllSelf(p: string)
    requires p != []
    ensures DeleteAll(p, p) == []
  {
    assert p[..|p|] == p;
    assert p[|p|..] == [];
  }

  /**
   * A pattern no proper prefix of which is also a suffix (a pattern without a border) cannot overlap itself,
   * so an occurrence in `x + p` that starts inside `x` lies within `x`.
   */
  predicate NoBorder(p: string) {
    forall k | 0 < k < |p| :: p[..k] != p[|p| - k..]
  }

  lemma NoOccurrenceStraddles(x: string, p: string)
    requires p != [] && NoBorder(p) && !Contains(x, p)
    ensures forall i | 0 <= i < |x| :: !OccursAt(x + p, p, i)
  {
    var s := x + p;
    forall i | 0 <= i < |x| ensures !OccursAt(s, p, i) {
      if i + |p| > |s| {
      } else if i + |p| <= |x| {
        assert s[i..i + |p|] == x[i..i + |p|];
        assert !OccursAt(x, p, i);
      } else {
        var d := |x| - i;
        var k := |p| - d;
        assert p[..k] != p[d..];
        var t :| 0 <= t < k && p[..k][t] != p[d..][t];
        assert s[|x| + t] == p[t];
        assert s[i..i + |p|][d + t] != p[d + t];
      }
    }
  }

  /**
   * A marker that occurs neither in `x` nor in `y`, and that does not contain the first character of `y`,
   * does not occur in `x + y`.
   */
  lemma NotContainedInConcat(x: string, y: string, m: string)
    requires m != [] && y != [] && !Contains(x, m) && !Contains(y, m)
    requires forall t | 0 <= t < |m| :: m[t] != y[0]
    ensures !Contains(x + y, m)
  {
    var s := x + y;
    forall i | 0 <= i <= |s| - |m| ensures !OccursAt(s, m, i) {
      if i + |m| <= |x| {
        assert s[i..i + |m|] == x[i..i + |m|];
        assert !OccursAt(x, m, i);
      } else if i >= |x| {
        assert s[i..i + |m|] == y[i - |x|..i - |x| + |m|];
        assert !OccursAt(y, m, i - |x|);
      } else {
        assert s[i..i + |m|][|x| - i] == y[0] != m[|x| - i];
      }
    }
  }

  /**
   * A marker that occurs neither in `x` nor in `y`, that does not end with the first character of `y`, and
   * that does not contain its second, does not occur in `x + y`.
   */
  lemma NotContainedBeforeSuffix(x: string, y: string, m: string)
    requires m != [] && |y| >= 2 && !Contains(x, m) && !Contains(y, m)
    requires m[|m| - 1] != y[0] && forall t | 0 <= t < |m| :: m[t] != y[1]
    ensures !Contains(x + y, m)
  {
    var s := x + y;
    forall i | 0 <= i <= |s| - |m| ensures !OccursAt(s, m, i) {
      if i + |m| <= |x| {
        assert s[i..i + |m|] == x[i..i + |m|];
        assert !OccursAt(x, m, i);
      } else if i >= |x| {
        assert s[i..i + |m|] == y[i - |x|..i - |x| + |m|];
        assert !OccursAt(y, m, i - |x|);
      } else if i + |m| == |x| + 1 {
        assert s[i..i + |m|][|m| - 1] == y[0];
      } else {
        assert s[i..i + |m|][|x| + 1 - i] == y[1];
      }
    }
  }

  /** A marker one of whose characters does not occur in `s` does not occur in `s`. */
  lemma CharAbsent(s: string, m: string, k: nat)
    requires k < |m| && m[k] !in s
    ensures !Contains(s, m)
  {
    forall i | 0 <= i <= |s| - |m| ensures !OccursAt(s, m, i) {
      assert s[i..i + |m|][k] == s[i + k];
    }
  }

  /** A marker whose first two characters never appear side by side in `s` does not occur in `s`. */
  lemma FirstPairAbsent(s: string, m: string)
    requires |m| >= 2 && forall i | 0 <= i < |s| - 1 :: s[i] != m[0] || s[i + 1] != m[1]
    ensures !Contains(s, m)
  {
    forall i | 0 <= i <= |s| - |m| ensures !OccursAt(s, m, i) {
      assert s[i..i + |m|][0] == s[i] && s[i..i + |m|][1] == s[i + 1];
    }
  }

  /** A pattern whose first two characters appear together nowhere else in it has no border. */
  lemma NoBorderByFirstPair(p: string)
    requires |p| >= 2
    requires forall d | 0 < d < |p| :: p[d] != p[0] || (d + 1 < |p| && p[d + 1] != p[1])
    ensures NoBorder(p)
  {
    forall k | 0 < k < |p| ensures p[..k] != p[|p| - k..] {
      var d := |p| - k;
      if p[d] != p[0] {
        assert p[..k][0] != p[d..][0];
      } else {
        assert p[..k][1] != p[d..][1];
      }
    }
  }

  /** A marker whose first character occurs neither before nor after one occurrence of it is deleted alone. */
  lemma DeleteBetween(x: string, m: string, y: string)
    requires m != [] && m[0] !in x && m[0] !in y
    ensures DeleteAll(x + m + y, m) == x + y
  {
    var rest := m + y;
    assert x + m + y == x + rest;
    forall i | 0 <= i < |x| ensures !OccursAt(x + rest, m, i) {
      assert (x + rest)[i..i + |m|][0] == x[i] != m[0];
    }
    DeleteAllKeepsPrefix(x, rest, m);
    assert rest[..|m|] == m && rest[|m|..] == y;
    CharAbsent(y, m, 0);
    DeleteAllAbsent(y, m);
  }
}
