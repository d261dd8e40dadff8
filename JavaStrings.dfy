/**
 * The two java.lang.String operations the condition relies on:
 * `trim()` and `equalsIgnoreCase(String)`. Java's `char` is a UTF-16
 * code unit; here a string is a `seq<char>`, and only the code points
 * matter to both operations.
 */
module JavaStrings {

  // ---------------------------------------------------------------------
  // String.trim
  // ---------------------------------------------------------------------

  /** `trim()` strips every char whose code is at most U+0020 (space). */
  predicate IsTrimmable(c: char) {
    c <= ' '
  }

  predicate AllTrimmable(s: string) {
    forall k :: 0 <= k < |s| ==> IsTrimmable(s[k])
  }

  /** Neither end of `s` holds a trimmable char. */
  predicate IsTrimmed(s: string) {
    s == [] || (!IsTrimmable(s[0]) && !IsTrimmable(s[|s| - 1]))
  }

  /**
   * The index `trim()` scans forward to: the first char above U+0020,
   * or the length when there is none.
   */
  function TrimStart(s: string): (st: nat)
    ensures st <= |s|
    ensures AllTrimmable(s[..st])
    ensures st < |s| ==> !IsTrimmable(s[st])
  {
    if |s| == 0 || !IsTrimmable(s[0]) then 0
    else
      var rest := TrimStart(s[1..]);
      assert s[..1 + rest] == [s[0]] + s[1..][..rest];
      1 + rest
  }

  /**
   * The index `trim()` scans backward to from the end, never passing
   * `st`: one past the last char above U+0020 at or after `st`.
   */
  function TrimEnd(s: string, st: nat): (en: nat)
    requires st <= |s|
    ensures st <= en <= |s|
    ensures AllTrimmable(s[en..])
    ensures en > st ==> !IsTrimmable(s[en - 1])
    decreases |s|
  {
    if |s| == st || !IsTrimmable(s[|s| - 1]) then |s|
    else
      var en := TrimEnd(s[..|s| - 1], st);
      assert s[en..] == s[..|s| - 1][en..] + [s[|s| - 1]];
      en
  }

  /**
   * The forward scan stops at the first char above U+0020. This follows
   * from the contract of `TrimStart` alone.
   */
  lemma TrimStartAt(s: string, i: nat)
    requires i < |s| && AllTrimmable(s[..i]) && !IsTrimmable(s[i])
    ensures TrimStart(s) == i
  {
  }

  /**
   * The backward scan stops one past the last char above U+0020. This
   * follows from the contract of `TrimEnd` alone.
   */
  lemma TrimEndAt(s: string, st: nat, j: nat)
    requires st < j <= |s| && AllTrimmable(s[j..]) && !IsTrimmable(s[j - 1])
    ensures TrimEnd(s, st) == j
  {
  }

  /** Java's `String.trim()`. */
  function Trim(s: string): (r: string)
    ensures |r| <= |s|
    ensures IsTrimmed(r)
  {
    var st := TrimStart(s);
    s[st..TrimEnd(s, st)]
  }

  /**
   * Independent description of a trim: `r` is the infix of `s` left
   * once only trimmable chars are removed from both ends, and `r`
   * itself starts and ends with a non-trimmable char (or is empty).
   */
  ghost predicate IsTrimOf(r: string, s: string) {
    exists i, j :: 0 <= i <= j <= |s| && r == s[i..j]
      && AllTrimmable(s[..i]) && AllTrimmable(s[j..]) && IsTrimmed(r)
  }

  /** `Trim(s)` is a trim of `s` in the sense of `IsTrimOf`. */
  lemma TrimSatisfiesIsTrimOf(s: string)
    ensures IsTrimOf(Trim(s), s)
  {
  }

  /** A string whose blank prefix and blank suffix meet is blank throughout. */
  lemma BlankJoin(s: string, i: nat)
    requires i <= |s| && AllTrimmable(s[..i]) && AllTrimmable(s[i..])
    ensures AllTrimmable(s)
  {
    forall k | 0 <= k < |s| ensures IsTrimmable(s[k]) {
      if k < i { assert s[k] == s[..i][k]; }
      else { assert s[k] == s[i..][k - i]; }
    }
  }

  /** An infix between a blank prefix and a blank suffix, with non-blank ends, is the trim. */
  lemma TrimmedInfixIsTrim(s: string, i: nat, j: nat)
    requires i <= j <= |s| && AllTrimmable(s[..i]) && AllTrimmable(s[j..])
    requires IsTrimmed(s[i..j])
    ensures s[i..j] == Trim(s)
  {
    if i == j {
      BlankJoin(s, i);
      assert TrimStart(s) == |s|;
    } else {
      assert s[i] == s[i..j][0] && s[j - 1] == s[i..j][j - i - 1];
      TrimStartAt(s, i);
      TrimEndAt(s, i, j);
    }
  }

  /** Any trim of `s` in the sense of `IsTrimOf` is `Trim(s)`. */
  lemma IsTrimOfUnique(s: string, r: string)
    requires IsTrimOf(r, s)
    ensures r == Trim(s)
  {
    var i, j :| 0 <= i <= j <= |s| && r == s[i..j]
      && AllTrimmable(s[..i]) && AllTrimmable(s[j..]) && IsTrimmed(r);
    TrimmedInfixIsTrim(s, i, j);
  }

  /** `Trim` is exactly the trim described by `IsTrimOf`. */
  lemma TrimIsTrimOf(s: string, r: string)
    ensures IsTrimOf(r, s) <==> r == Trim(s)
  {
    TrimSatisfiesIsTrimOf(s);
    if IsTrimOf(r, s) {
      IsTrimOfUnique(s, r);
    }
  }

  /** Trimming a trimmed string changes nothing. */
  lemma TrimIdempotent(s: string)
    ensures Trim(Trim(s)) == Trim(s)
  {
    var r := Trim(s);
    assert r[0..|r|] == r;
    assert IsTrimOf(r, r) by {
      assert r == r[0..|r|] && AllTrimmable(r[..0]) && AllTrimmable(r[|r|..]);
    }
    TrimIsTrimOf(r, r);
  }

  /** A trimmed string is its own trim. */
  lemma TrimOfTrimmed(s: string)
    requires IsTrimmed(s)
    ensures Trim(s) == s
  {
    assert s[0..|s|] == s;
    assert IsTrimOf(s, s) by {
      assert AllTrimmable(s[..0]) && AllTrimmable(s[|s|..]);
    }
    TrimIsTrimOf(s, s);
  }

  /** `trim()` yields "" exactly for strings made only of chars <= U+0020. */
  lemma TrimEmptyIffBlank(s: string)
    ensures Trim(s) == "" <==> AllTrimmable(s)
  {
    if AllTrimmable(s) {
      assert s[..|s|] == s;
      assert IsTrimOf("", s) by {
        assert "" == s[|s|..|s|] && AllTrimmable(s[|s|..]);
      }
      TrimIsTrimOf(s, "");
    }
    if Trim(s) == "" {
      var st := TrimStart(s);
      var en := TrimEnd(s, st);
      assert en == st;
      forall k | 0 <= k < |s| ensures IsTrimmable(s[k]) {
        if k < st { assert s[k] == s[..st][k]; }
        else { assert s[k] == s[en..][k - en]; }
      }
    }
  }

  // ---------------------------------------------------------------------
  // String.equalsIgnoreCase
  // ---------------------------------------------------------------------

  /**
   * Character.toUpperCase, restricted to the chars whose upper case is an
   * ASCII letter: the ASCII lower-case letters, dotless i (U+0131) and
   * long s (U+017F).
   */
  function ToUpperCase(c: char): char {
    if 'a' <= c <= 'z' then (c as int - 32) as char
    else if c == '\U{0131}' then 'I'
    else if c == '\U{017F}' then 'S'
    else c
  }

  /**
   * Character.toLowerCase, restricted to the chars whose lower case is an
   * ASCII letter: the ASCII upper-case letters, capital I with dot above
   * (U+0130) and the Kelvin sign (U+212A).
   */
  function ToLowerCase(c: char): char {
    if 'A' <= c <= 'Z' then (c as int + 32) as char
    else if c == '\U{0130}' then 'i'
    else if c == '\U{212A}' then 'k'
    else c
  }

  /** The case fold equalsIgnoreCase ends with: upper-case, then lower-case. */
  function FoldCase(c: char): char {
    ToLowerCase(ToUpperCase(c))
  }

  /**
   * One step of `regionMatches(true, ...)`: the chars are equal, or
   * equal once upper-cased, or equal once the upper-cased chars are
   * lower-cased.
   */
  predicate CharEqualsIgnoreCase(c1: char, c2: char) {
    || c1 == c2
    || ToUpperCase(c1) == ToUpperCase(c2)
    || FoldCase(c1) == FoldCase(c2)
  }

  /** `regionMatches(true, 0, b, 0, |a|)` on two strings of equal length. */
  predicate RegionMatchesIgnoreCase(a: string, b: string)
    requires |a| == |b|
  {
    |a| == 0 || (CharEqualsIgnoreCase(a[0], b[0]) && RegionMatchesIgnoreCase(a[1..], b[1..]))
  }

  /** Java's `a.equalsIgnoreCase(b)` for a non-null `b`. */
  predicate EqualsIgnoreCase(a: string, b: string) {
    |a| == |b| && RegionMatchesIgnoreCase(a, b)
  }

  /** Reference definition: the strings agree once every char is case-folded. */
  ghost predicate SameIgnoringCase(a: string, b: string) {
    |a| == |b| && forall k :: 0 <= k < |a| ==> FoldCase(a[k]) == FoldCase(b[k])
  }

  /**
   * The three-way char test is equality of the folded chars: the first two
   * tests only ever succeed when the third does, whatever the case mapping.
   */
  lemma CharEqualsIgnoreCaseIffFold(c1: char, c2: char)
    ensures CharEqualsIgnoreCase(c1, c2) <==> FoldCase(c1) == FoldCase(c2)
  {
  }

  /** Folding never turns a char above U+0020 into a blank, or the reverse. */
  lemma FoldCaseKeepsBlank(c: char)
    ensures IsTrimmable(FoldCase(c)) <==> IsTrimmable(c)
  {
  }

  /** `equalsIgnoreCase` agrees with the reference definition on all inputs. */
  lemma {:induction false} EqualsIgnoreCaseIffSame(a: string, b: string)
    ensures EqualsIgnoreCase(a, b) <==> SameIgnoringCase(a, b)
    decreases |a|
  {
    if |a| == |b| && |a| > 0 {
      CharEqualsIgnoreCaseIffFold(a[0], b[0]);
      EqualsIgnoreCaseIffSame(a[1..], b[1..]);
      if SameIgnoringCase(a, b) {
        assert SameIgnoringCase(a[1..], b[1..]) by {
          forall k | 0 <= k < |a| - 1 ensures FoldCase(a[1..][k]) == FoldCase(b[1..][k]) {
            assert a[1..][k] == a[k + 1] && b[1..][k] == b[k + 1];
          }
        }
      }
      if EqualsIgnoreCase(a, b) {
        forall k | 0 <= k < |a| ensures FoldCase(a[k]) == FoldCase(b[k]) {
          if k > 0 { assert a[k] == a[1..][k - 1] && b[k] == b[1..][k - 1]; }
        }
      }
    }
  }

  /** `equalsIgnoreCase` is symmetric. */
  lemma EqualsIgnoreCaseSymmetric(a: string, b: string)
    ensures EqualsIgnoreCase(a, b) <==> EqualsIgnoreCase(b, a)
  {
    EqualsIgnoreCaseIffSame(a, b);
    EqualsIgnoreCaseIffSame(b, a);
  }

  /** `equalsIgnoreCase` is transitive. */
  lemma EqualsIgnoreCaseTransitive(a: string, b: string, c: string)
    requires EqualsIgnoreCase(a, b) && EqualsIgnoreCase(b, c)
    ensures EqualsIgnoreCase(a, c)
  {
    EqualsIgnoreCaseIffSame(a, b);
    EqualsIgnoreCaseIffSame(b, c);
    EqualsIgnoreCaseIffSame(a, c);
  }

  /** Every string equals itself ignoring case. */
  lemma EqualsIgnoreCaseReflexive(a: string)
    ensures EqualsIgnoreCase(a, a)
  {
    EqualsIgnoreCaseIffSame(a, a);
  }
}
