/**
 * The two extension patterns of the tool.  `getFiles` tests them, as
 * `RegExp(pattern, 'gi')`, against a name's extension: a plain alternation of
 * lower-case tokens matched case-insensitively, that is, "the extension,
 * ASCII-lower-cased, contains one of the tokens".  (Without the `u` flag a
 * non-ASCII character never folds onto an ASCII one, so ASCII folding is exact.)
 */
module Patterns {

  datatype Pattern = RawPattern | JpgPattern

  /** The 22 alternatives of `rawRegExp`. */
  const RAW_TOKENS: seq<string> :=
    ["crw", "cr2", "cr3", "nef", "nrw", "pef", "dng", "raf", "srw", "orf", "srf",
     "sr2", "arw", "rw2", "3fr", "dcr", "kdc", "mrw", "rwl", "mos", "x3f", "gpr"]

  /** The only alternative of `jpgRegExp`. */
  const JPG_TOKEN: string := "jpg"

  function Tokens(p: Pattern): seq<string> {
    match p
    case RawPattern => RAW_TOKENS
    case JpgPattern => [JPG_TOKEN]
  }

  function LowerAscii(c: char): char {
    if 'A' <= c <= 'Z' then (c as int + 32) as char else c
  }

  function Lower(s: string): (r: string)
    ensures |r| == |s| && forall i :: 0 <= i < |s| ==> r[i] == LowerAscii(s[i])
  {
    seq(|s|, i requires 0 <= i < |s| => LowerAscii(s[i]))
  }

  /** `t` occurs in `s` starting at position `i`. */
  predicate OccursAt(t: string, s: string, i: int) {
    0 <= i && i + |t| <= |s| && s[i..i + |t|] == t
  }

  /** `t` occurs in `s` at some position. */
  predicate IsSubstring(t: string, s: string) {
    exists i | 0 <= i <= |s| - |t| :: OccursAt(t, s, i)
  }

  /** `RegExp(p, 'gi').test(ext)`. */
  predicate Matches(p: Pattern, ext: string) {
    exists t | t in Tokens(p) :: IsSubstring(t, Lower(ext))
  }

  /** The pattern `movePictureFiles` and `getOriginalDocumentFiles` pick for
      an archive sub-folder: `jpgRegExp.test(dirName) ? jpgRegExp : rawRegExp`
      (a case-sensitive test of the folder name). */
  function PatternFor(dirName: string): (p: Pattern)
    ensures p == JpgPattern <==> IsSubstring(JPG_TOKEN, dirName)
  {
    if IsSubstring(JPG_TOKEN, dirName) then JpgPattern else RawPattern
  }

  /** A pattern ignores the case of ASCII letters. */
  lemma MatchesIgnoresCase(p: Pattern, a: string, b: string)
    requires |a| == |b|
    requires forall i :: 0 <= i < |a| ==> LowerAscii(a[i]) == LowerAscii(b[i])
    ensures Matches(p, a) <==> Matches(p, b)
  {
    assert Lower(a) == Lower(b);
  }

  /** Every token is three characters long and ASCII lower case, so a
      matching extension has at least three characters. */
  lemma {:induction false} MatchNeedsThreeCharacters(p: Pattern, ext: string)
    requires Matches(p, ext)
    ensures |ext| >= 3
  {
    var t :| t in Tokens(p) && IsSubstring(t, Lower(ext));
    assert |t| == 3;
  }
}
