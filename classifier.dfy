/** `getFiles` and `hasPictureFiles`: which entries of a directory are
    pictures of a kind, in the order the tool handles them. */
module Classifier {
  import opened AbstractFs
  import opened StringOrder
  import opened NodePath
  import opened Patterns

  /** `statSync(...).isFile() && RegExp(p, 'gi').test(extname(n))`. */
  predicate IsMatchingFile(l: Listing, n: Name, p: Pattern) {
    n in l && l[n] == File && Matches(p, Extname(n))
  }

  /** Only a name with a "." after its first character can match (a hidden
      file such as ".jpg" has no extension), and its extension then has at
      least three characters. */
  lemma MatchingNameHasExtension(l: Listing, n: Name, p: Pattern)
    requires IsMatchingFile(l, n, p)
    ensures '.' in n[1..] && 3 <= |Extname(n)| < |n|
  {
    MatchNeedsThreeCharacters(p, Extname(n));
  }

  /** A regular file that either pattern matches. */
  predicate IsPicture(l: Listing, n: Name) {
    IsMatchingFile(l, n, RawPattern) || IsMatchingFile(l, n, JpgPattern)
  }

  /** `getFiles(p, dir)`: the regular files of the listing whose extension
      matches, sorted ascending; directories never appear and each name
      appears once. */
  function ListFiles(l: Listing, p: Pattern): (r: seq<Name>)
    ensures StrictlySorted(r)
    ensures forall n: Name :: n in r <==> IsMatchingFile(l, n, p)
  {
    var matching: set<Name> := set n | n in l && IsMatchingFile(l, n, p);
    SortedElements(matching)
  }

  /** `hasPictureFiles(jpgRegExp, rawRegExp)` on a listing: either pattern
      lists at least one file. */
  function HasPictureFiles(l: Listing): (r: bool)
    ensures r <==> exists n: Name :: IsPicture(l, n)
  {
    var jpgs, raws := ListFiles(l, JpgPattern), ListFiles(l, RawPattern);
    assert jpgs != [] ==> IsPicture(l, jpgs[0]);
    assert raws != [] ==> IsPicture(l, raws[0]);
    assert (exists n: Name :: IsPicture(l, n)) ==> jpgs != [] || raws != [] by {
      if n: Name :| IsPicture(l, n) {
        assert n in jpgs || n in raws;
      }
    }
    jpgs != [] || raws != []
  }

  /** Listing depends only on the regular-file entries that match. */
  lemma ListFilesDeterminedByMatches(l1: Listing, l2: Listing, p: Pattern)
    requires forall n: Name :: IsMatchingFile(l1, n, p) <==> IsMatchingFile(l2, n, p)
    ensures ListFiles(l1, p) == ListFiles(l2, p)
  {
    var r1, r2 := ListFiles(l1, p), ListFiles(l2, p);
    forall x ensures x in r1 <==> x in r2 {
      if x in r1 { assert ValidName(x); }
      if x in r2 { assert ValidName(x); }
    }
    StrictlySortedUnique(r1, r2);
  }
}
