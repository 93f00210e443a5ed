/**
 * `hasSameFile(file1, file2)`: the stem of `file1`, as the capture of
 * `/(.*)(?:\.\w+)/`, is used as a regular expression and applied to `file2`.
 *
 * The capture follows JavaScript's backtracking semantics: the match starts
 * at the leftmost position where one is possible, and the greedy `(.*)` then
 * ends at the last "." followed by a word character that it can reach.
 * `.` does not match line terminators, so neither the capture nor a `.` of
 * the stem used as a pattern crosses one.
 */
module Stem {
  import opened Wrappers
  import opened Patterns

  /** `\w`. */
  predicate IsWordChar(c: char) {
    'a' <= c <= 'z' || 'A' <= c <= 'Z' || '0' <= c <= '9' || c == '_'
  }

  /** The characters `.` does not match. */
  predicate IsLineTerminator(c: char) {
    c == '\n' || c == '\r' || c == '\U{2028}' || c == '\U{2029}'
  }

  /** `\.\w` can match at position `k`. */
  predicate IsSuffixStart(a: string, k: int) {
    0 <= k && k + 1 < |a| && a[k] == '.' && IsWordChar(a[k + 1])
  }

  predicate NoLineTerminator(a: string, lo: int, hi: int)
    requires 0 <= lo <= hi <= |a|
  {
    forall i | lo <= i < hi :: !IsLineTerminator(a[i])
  }

  /** The regular expression matches at `s` with `(.*)` capturing `a[s..k]`. */
  predicate MatchesAt(a: string, s: int, k: int) {
    0 <= s <= k && IsSuffixStart(a, k) && NoLineTerminator(a, s, k)
  }

  /** First line terminator at or after `s`, or the end of `a`. */
  function LineEnd(a: string, s: nat): (e: nat)
    requires s <= |a|
    ensures s <= e <= |a| && NoLineTerminator(a, s, e)
    ensures e < |a| ==> IsLineTerminator(a[e])
    decreases |a| - s
  {
    if s == |a| || IsLineTerminator(a[s]) then s else LineEnd(a, s + 1)
  }

  /** The last position in `[lo, hi)` where `\.\w` can match. */
  function LastSuffixStart(a: string, lo: nat, hi: nat): (r: Option<nat>)
    requires lo <= hi <= |a|
    ensures r.Some? ==> lo <= r.value < hi && IsSuffixStart(a, r.value)
    ensures r.Some? ==> forall k :: r.value < k < hi ==> !IsSuffixStart(a, k)
    ensures r.None? ==> forall k :: lo <= k < hi ==> !IsSuffixStart(a, k)
    decreases hi - lo
  {
    if hi == lo then None
    else if IsSuffixStart(a, hi - 1) then Some(hi - 1)
    else LastSuffixStart(a, lo, hi - 1)
  }

  /** The match of the regular expression among the starts from `s` on
      (a line start), as (start, end of the capture): the leftmost start,
      and for it the longest capture. */
  function MatchFrom(a: string, s: nat): (r: Option<(nat, nat)>)
    requires s <= |a| && (s == 0 || IsLineTerminator(a[s - 1]))
    ensures r.None? ==> forall s', k' :: s <= s' && MatchesAt(a, s', k') ==> false
    ensures r.Some? ==>
      && s <= r.value.0 && MatchesAt(a, r.value.0, r.value.1)
      && (forall s', k' :: s <= s' && MatchesAt(a, s', k') ==> r.value.0 <= s')
      && (forall k' :: MatchesAt(a, r.value.0, k') ==> k' <= r.value.1)
    decreases |a| - s
  {
    var e := LineEnd(a, s);
    match LastSuffixStart(a, s, e)
    case Some(k) =>
      assert forall k' :: MatchesAt(a, s, k') ==> k' <= k;
      Some((s, k))
    case None =>
      assert forall s', k' :: s <= s' <= e && MatchesAt(a, s', k') ==> false;
      if e == |a| then None else MatchFrom(a, e + 1)
  }

  /** The capture `(.*)` of `file.match(/(.*)(?:\.\w+)/)`, or None when the
      regular expression does not match. */
  function StemOf(a: string): (r: Option<string>)
    ensures r.None? <==> forall s, k :: !MatchesAt(a, s, k)
    ensures r.Some? ==> exists s, k :: IsLeftmostLongest(a, s, k) && r.value == a[s..k]
  {
    match MatchFrom(a, 0)
    case None => None
    case Some((s, k)) =>
      assert IsLeftmostLongest(a, s, k);
      Some(a[s..k])
  }

  /** (s, k) is the match the regular expression engine reports. */
  ghost predicate IsLeftmostLongest(a: string, s: int, k: int) {
    && MatchesAt(a, s, k)
    && (forall s', k' :: MatchesAt(a, s', k') ==> s <= s')
    && (forall k' :: MatchesAt(a, s, k') ==> k' <= k)
  }

  /** Characters with a meaning in a regular expression other than `.`. */
  predicate IsMetaCharacter(c: char) {
    c in "\\^$*+?()[]{}|"
  }

  /** The stem, used as `new RegExp(stem)`, is a literal pattern apart from
      its `.` wildcards. */
  predicate SafeStem(a: string) {
    StemOf(a).None? || forall i | 0 <= i < |StemOf(a).value| :: !IsMetaCharacter(StemOf(a).value[i])
  }

  /** A pattern character matches a subject character. */
  predicate CharMatches(pc: char, c: char) {
    if pc == '.' then !IsLineTerminator(c) else pc == c
  }

  predicate PatternAt(pat: string, subject: string, i: int) {
    0 <= i && i + |pat| <= |subject| && forall k | 0 <= k < |pat| :: CharMatches(pat[k], subject[i + k])
  }

  /** A literal occurrence is a match: `.` of the pattern meets a "." of
      the subject, which is no line terminator. */
  lemma OccurrenceMatches(pat: string, subject: string)
    ensures forall i :: OccursAt(pat, subject, i) ==> PatternAt(pat, subject, i)
  {
    forall i | OccursAt(pat, subject, i) ensures PatternAt(pat, subject, i) {
      forall k | 0 <= k < |pat| ensures CharMatches(pat[k], subject[i + k]) {
        assert subject[i..i + |pat|][k] == subject[i + k];
      }
    }
  }

  /** `new RegExp(pat).test(subject)` for a pattern without metacharacters
      other than `.`: the pattern matches wherever it occurs literally, and
      never in a shorter subject. */
  predicate RegexTest(pat: string, subject: string)
    ensures IsSubstring(pat, subject) ==> RegexTest(pat, subject)
    ensures RegexTest(pat, subject) ==> |pat| <= |subject|
  {
    OccurrenceMatches(pat, subject);
    exists i | 0 <= i <= |subject| - |pat| :: PatternAt(pat, subject, i)
  }

  /** `hasSameFile(file1, file2)`: `!!fileName && new RegExp(fileName).test(file2)`.
      It needs a non-empty stem no longer than `file2`, and holds whenever
      that stem occurs in `file2` as written. */
  predicate HasSameFile(file1: string, file2: string)
    requires SafeStem(file1)
    ensures HasSameFile(file1, file2) ==>
      StemOf(file1).Some? && StemOf(file1).value != "" && |StemOf(file1).value| <= |file2|
    ensures StemOf(file1).Some? && StemOf(file1).value != "" && IsSubstring(StemOf(file1).value, file2) ==>
      HasSameFile(file1, file2)
  {
    match StemOf(file1)
    case None => false
    case Some(stem) => stem != "" && RegexTest(stem, file2)
  }
}

module StemFacts {
  import opened Wrappers
  import opened Patterns
  import opened Stem

  /** Without line breaks the stem is everything before the last "." that is
      followed by a word character. */
  lemma StemWithoutLineBreaks(a: string)
    requires NoLineTerminator(a, 0, |a|)
    ensures StemOf(a) == match LastSuffixStart(a, 0, |a|)
                         case None => None
                         case Some(k) => Some(a[..k])
  {
    assert LineEnd(a, 0) == |a|;
  }

  /** A name whose stem is not empty has the same file as itself. */
  lemma {:induction false} HasSameFileItself(a: string)
    requires SafeStem(a) && StemOf(a).Some? && StemOf(a).value != ""
    ensures HasSameFile(a, a)
  {
    var s, k :| IsLeftmostLongest(a, s, k) && StemOf(a).value == a[s..k];
    var stem := a[s..k];
    assert PatternAt(stem, a, s) by {
      forall j | 0 <= j < |stem| ensures CharMatches(stem[j], a[s + j]) {
        assert stem[j] == a[s + j];
        assert !IsLineTerminator(a[s + j]);
      }
    }
  }

  /** For a stem without `.`, the test is plain containment. */
  lemma {:induction false} HasSameFileIsContainment(a: string, b: string)
    requires SafeStem(a) && StemOf(a).Some? && '.' !in StemOf(a).value
    ensures HasSameFile(a, b) <==> StemOf(a).value != "" && IsSubstring(StemOf(a).value, b)
  {
    var stem := StemOf(a).value;
    forall i | 0 <= i <= |b| - |stem| ensures PatternAt(stem, b, i) <==> OccursAt(stem, b, i) {
      if PatternAt(stem, b, i) {
        assert forall j | 0 <= j < |stem| :: stem[j] != '.';
        assert b[i..i + |stem|] == stem;
      }
      if OccursAt(stem, b, i) {
        forall j | 0 <= j < |stem| ensures CharMatches(stem[j], b[i + j]) {
          assert b[i..i + |stem|][j] == b[i + j];
          assert stem[j] != '.';
        }
      }
    }
  }

  /** A name with no "." followed by a word character has no stem, and
      `hasSameFile` is false whatever it is compared with. */
  lemma NoSuffixNeverPaired(a: string, b: string)
    requires forall k :: 0 <= k < |a| - 1 ==> !(a[k] == '.' && IsWordChar(a[k + 1]))
    ensures SafeStem(a) && !HasSameFile(a, b)
  {
    assert forall s, k :: !MatchesAt(a, s, k);
  }

  /** When a name with no line break has a single ".", followed by a word
      character, its stem is what precedes it. */
  lemma {:induction false} OnlyDotStem(a: string, d: nat)
    requires d + 1 < |a| && a[d] == '.' && IsWordChar(a[d + 1])
    requires forall i :: 0 <= i < |a| && i != d ==> a[i] != '.' && !IsLineTerminator(a[i])
    ensures StemOf(a) == Some(a[..d])
  {
    assert MatchesAt(a, 0, d);
    assert StemOf(a).Some?;
    var s, k :| IsLeftmostLongest(a, s, k) && StemOf(a).value == a[s..k];
    assert s == 0 && k == d;
  }
}
