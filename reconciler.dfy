/**
 * `getOriginalDocumentFiles`, `getOriginalDocumentToDelete` and the choice
 * `deleteNonContrastFiles` makes: which archive files are deleted on a
 * second run.
 *
 * The comparison is by position: file `j` of one list is compared only with
 * file `j` of the other list (`originalDocumentFiles[1 - i][j]`), and past
 * the end of the other list with `undefined`, which `RegExp.test` reads as
 * the string "undefined".
 */
module Reconciler {
  import opened Wrappers
  import opened AbstractFs
  import opened StringOrder
  import opened Stem
  import StemFacts

  /** `originalDocumentFiles[1 - i][j]` as `test` sees it. */
  function CompareAt(others: seq<Name>, j: nat): string {
    if j < |others| then others[j] else "undefined"
  }

  /** Every stem can be used as a pattern (`new RegExp` does not throw). */
  predicate AllSafe(files: seq<Name>) {
    forall j | 0 <= j < |files| :: SafeStem(files[j])
  }

  /** The filter callback of `getOriginalDocumentToDelete` keeps file `j`. */
  predicate Kept(files: seq<Name>, others: seq<Name>, j: nat)
    requires j < |files| && SafeStem(files[j])
  {
    !HasSameFile(files[j], CompareAt(others, j))
  }

  /** `files.filter((file, j) => !hasSameFile(file, others[j]))`. */
  function Unpaired(files: seq<Name>, others: seq<Name>): (r: seq<Name>)
    requires AllSafe(files)
    ensures |r| <= |files|
    ensures forall x :: x in r ==> x in files
    ensures StrictlySorted(files) ==> StrictlySorted(r)
    decreases |files|
  {
    if files == [] then []
    else
      var j := |files| - 1;
      var front := Unpaired(files[..j], others);
      assert forall x :: x in front ==> x in files[..j];
      if Kept(files, others, j) then
        assert StrictlySorted(files) ==> StrictlySorted(front + [files[j]]) by {
          if StrictlySorted(files) {
            assert StrictlySorted(files[..j]);
            forall i | 0 <= i < |front| ensures Less(front[i], files[j]) {
              assert front[i] in files[..j];
              var m :| 0 <= m < j && files[m] == front[i];
            }
          }
        }
        front + [files[j]]
      else front
  }

  /** A position of a prefix is kept exactly when it is kept in the whole
      list: the filter looks at one position at a time. */
  lemma KeptInPrefix(files: seq<Name>, others: seq<Name>, n: nat)
    requires AllSafe(files) && n <= |files|
    ensures AllSafe(files[..n])
    ensures forall j: nat :: j < n ==> (Kept(files[..n], others, j) <==> Kept(files, others, j))
  {
    forall j: nat | j < n ensures files[..n][j] == files[j] {
    }
  }

  /** The positions `Unpaired` keeps, in ascending order: an independent
      statement of the filter by index. */
  function KeptIndices(files: seq<Name>, others: seq<Name>): (ks: seq<nat>)
    requires AllSafe(files)
    ensures forall a, b :: 0 <= a < b < |ks| ==> ks[a] < ks[b]
    ensures forall t :: 0 <= t < |ks| ==> ks[t] < |files|
    ensures forall j: nat :: j in ks <==> j < |files| && Kept(files, others, j)
    decreases |files|
  {
    if files == [] then []
    else
      var j: nat := |files| - 1;
      var front := KeptIndices(files[..j], others);
      var ks := if Kept(files, others, j) then front + [j] else front;
      assert forall j': nat :: j' in ks <==> j' < |files| && Kept(files, others, j') by {
        KeptInPrefix(files, others, j);
        assert forall j': nat :: j' in ks <==> j' in front || (j' == j && Kept(files, others, j));
      }
      assert forall a, b :: 0 <= a < b < |ks| ==> ks[a] < ks[b] by {
        forall a, b | 0 <= a < b < |ks|
          ensures ks[a] < ks[b]
        {
          assert ks[a] == front[a];
          if b < |front| {
            assert ks[b] == front[b];
          }
        }
      }
      ks
  }

  /** The files `getOriginalDocumentToDelete` keeps are exactly the files at
      the kept positions, in their original order. */
  lemma {:induction false} UnpairedAtKeptIndices(files: seq<Name>, others: seq<Name>)
    requires AllSafe(files)
    ensures |Unpaired(files, others)| == |KeptIndices(files, others)|
    ensures forall t :: 0 <= t < |KeptIndices(files, others)| ==>
      Unpaired(files, others)[t] == files[KeptIndices(files, others)[t]]
    decreases |files|
  {
    if files != [] {
      var j := |files| - 1;
      UnpairedAtKeptIndices(files[..j], others);
      var front, ks := Unpaired(files[..j], others), KeptIndices(files[..j], others);
      forall t | 0 <= t < |ks|
        ensures front[t] == files[ks[t]]
      {
        assert files[..j][ks[t]] == files[ks[t]];
      }
      var r, k := Unpaired(files, others), KeptIndices(files, others);
      if Kept(files, others, j) {
        assert r == front + [files[j]] && k == ks + [j];
        forall t | 0 <= t < |k|
          ensures r[t] == files[k[t]]
        {
          if t < |ks| {
            assert r[t] == front[t] && k[t] == ks[t];
          }
        }
      } else {
        assert r == front && k == ks;
      }
    }
  }

  /** A name is on the list `getOriginalDocumentToDelete` returns exactly
      when it sits at a position the filter keeps. */
  lemma UnpairedIsKept(files: seq<Name>, others: seq<Name>)
    requires AllSafe(files)
    ensures forall x :: x in Unpaired(files, others) <==>
      exists j :: 0 <= j < |files| && files[j] == x && Kept(files, others, j)
  {
    var ks := KeptIndices(files, others);
    var r := Unpaired(files, others);
    UnpairedAtKeptIndices(files, others);
    forall x ensures x in r <==> exists j :: 0 <= j < |files| && files[j] == x && Kept(files, others, j) {
      if x in r {
        var t :| 0 <= t < |r| && r[t] == x;
        assert ks[t] in ks;
      }
      if j :| 0 <= j < |files| && files[j] == x && Kept(files, others, j) {
        assert j in ks;
        var t :| 0 <= t < |ks| && ks[t] == j;
        assert r[t] == x;
      }
    }
  }

  /** `getOriginalDocumentFiles` once both folders are listed: `null` when the
      counts are equal or either is zero, otherwise `[rawFiles, jpgFiles]`. */
  function OriginalDocumentFiles(rawFiles: seq<Name>, jpgFiles: seq<Name>): (r: Option<(seq<Name>, seq<Name>)>)
    ensures r.None? <==> |jpgFiles| == |rawFiles| || |jpgFiles| == 0 || |rawFiles| == 0
    ensures r.Some? ==> r.value == (rawFiles, jpgFiles)
  {
    if |jpgFiles| == |rawFiles| || |jpgFiles| == 0 || |rawFiles| == 0 then None
    else Some((rawFiles, jpgFiles))
  }

  /** `getOriginalDocumentToDelete([rawFiles, jpgFiles])`. */
  function OriginalDocumentToDelete(rawFiles: seq<Name>, jpgFiles: seq<Name>): (r: (seq<Name>, seq<Name>))
    requires AllSafe(rawFiles) && AllSafe(jpgFiles)
  {
    (Unpaired(rawFiles, jpgFiles), Unpaired(jpgFiles, rawFiles))
  }

  /** Each list of `getOriginalDocumentToDelete` holds exactly the names of
      its side that `hasSameFile` does not pair with the other side's name
      at the same position, or with "undefined" past the other side's end. */
  lemma ToDeleteByPosition(rawFiles: seq<Name>, jpgFiles: seq<Name>)
    requires AllSafe(rawFiles) && AllSafe(jpgFiles)
    ensures var (rawToDelete, jpgToDelete) := OriginalDocumentToDelete(rawFiles, jpgFiles);
      && (forall x :: x in rawToDelete <==>
            exists j :: 0 <= j < |rawFiles| && rawFiles[j] == x && !HasSameFile(x, CompareAt(jpgFiles, j)))
      && (forall x :: x in jpgToDelete <==>
            exists j :: 0 <= j < |jpgFiles| && jpgFiles[j] == x && !HasSameFile(x, CompareAt(rawFiles, j)))
  {
    UnpairedIsKept(rawFiles, jpgFiles);
    UnpairedIsKept(jpgFiles, rawFiles);
  }

  /** The archive sub-folder `deleteNonContrastFiles` deletes from. */
  datatype Target = RawFolder | JpgFolder

  /** Both lists are compared when there is a plan, so every stem of both
      must be usable as a pattern. */
  predicate PlanSafe(rawFiles: seq<Name>, jpgFiles: seq<Name>) {
    OriginalDocumentFiles(rawFiles, jpgFiles).Some? ==> AllSafe(rawFiles) && AllSafe(jpgFiles)
  }

  /** What `deleteNonContrastFiles` deletes: nothing without a plan; with one,
      the raw side's list from the raw folder when there are fewer jpg files
      than raw files (`isJpgUser`), the jpg side's list from the jpg folder
      otherwise. */
  function DeletionPlan(rawFiles: seq<Name>, jpgFiles: seq<Name>): (r: Option<(Target, seq<Name>)>)
    requires PlanSafe(rawFiles, jpgFiles)
    ensures r.None? <==> OriginalDocumentFiles(rawFiles, jpgFiles).None?
  {
    match OriginalDocumentFiles(rawFiles, jpgFiles)
    case None => None
    case Some((raws, jpgs)) =>
      var isJpgUser := |jpgs| < |raws|;
      var (rawFilesToDelete, jpgFilesToDelete) := OriginalDocumentToDelete(raws, jpgs);
      if isJpgUser then Some((RawFolder, rawFilesToDelete)) else Some((JpgFolder, jpgFilesToDelete))
  }

  /** Deletion always targets the folder with more files, and deletes only
      its files that are unpaired at their own position. */
  lemma DeletionTargetsMajority(rawFiles: seq<Name>, jpgFiles: seq<Name>)
    requires PlanSafe(rawFiles, jpgFiles)
    requires DeletionPlan(rawFiles, jpgFiles).Some?
    ensures var (target, files) := DeletionPlan(rawFiles, jpgFiles).value;
      && 0 < |jpgFiles| && 0 < |rawFiles| && |jpgFiles| != |rawFiles|
      && (target == RawFolder <==> |jpgFiles| < |rawFiles|)
      && (target == RawFolder ==> files == Unpaired(rawFiles, jpgFiles))
      && (target == JpgFolder ==> files == Unpaired(jpgFiles, rawFiles))
      && (forall x :: x in files ==> x in (if target == RawFolder then rawFiles else jpgFiles))
  {
  }

  /** Equal counts never delete anything, whatever the names. */
  lemma EqualCountsDeleteNothing(rawFiles: seq<Name>, jpgFiles: seq<Name>)
    requires |rawFiles| == |jpgFiles|
    ensures PlanSafe(rawFiles, jpgFiles) && DeletionPlan(rawFiles, jpgFiles).None?
  {
  }

  /** Compared with itself by position, a list whose every stem is non-empty
      has nothing unpaired. */
  lemma {:induction false} UnpairedWithItself(files: seq<Name>)
    requires AllSafe(files)
    requires forall j | 0 <= j < |files| :: StemOf(files[j]).Some? && StemOf(files[j]).value != ""
    ensures Unpaired(files, files) == []
  {
    var ks := KeptIndices(files, files);
    forall j: nat | j < |files| ensures !Kept(files, files, j) {
      StemFacts.HasSameFileItself(files[j]);
    }
    if ks != [] { HasMember(ks); }
    UnpairedAtKeptIndices(files, files);
  }

  lemma HasMember(ks: seq<nat>)
    requires ks != []
    ensures exists j :: j in ks
  {
    assert ks[0] in ks;
  }
}

/** The reconciliation on concrete archive contents. */
module ReconcilerExamples {
  import opened Wrappers
  import opened AbstractFs
  import opened Patterns
  import opened Stem
  import opened StemFacts
  import opened Reconciler

  /** A one-letter stem: a name `x.ext` whose extension has no "." pairs
      with exactly the names that contain `x`. */
  lemma {:induction false} OneLetterStem(a: string, x: char, ext: string, b: string)
    requires a == [x] + "." + ext
    requires x != '.' && !IsLineTerminator(x) && !IsMetaCharacter(x)
    requires 0 < |ext| && IsWordChar(ext[0])
    requires forall i | 0 <= i < |ext| :: ext[i] != '.' && !IsLineTerminator(ext[i])
    ensures SafeStem(a)
    ensures HasSameFile(a, b) <==> x in b
  {
    assert forall i :: 0 <= i < |a| && i != 1 ==> a[i] != '.' && !IsLineTerminator(a[i]) by {
      forall i | 0 <= i < |a| && i != 1 ensures a[i] != '.' && !IsLineTerminator(a[i]) {
        if i > 1 { assert a[i] == ext[i - 2]; }
      }
    }
    OnlyDotStem(a, 1);
    assert a[..1] == [x];
    HasSameFileIsContainment(a, b);
    if x in b {
      var i :| 0 <= i < |b| && b[i] == x;
      assert OccursAt([x], b, i);
    }
    if IsSubstring([x], b) {
      var i :| 0 <= i <= |b| - 1 && OccursAt([x], b, i);
      assert b[i] == b[i..i + 1][0];
    }
  }

  // Instances of `OneLetterStem` for the names of the two scenarios below;
  // each is kept apart so that the scenarios reason about the plan only.

  lemma PairedA()
    ensures SafeStem("a.CR2") && HasSameFile("a.CR2", "a.jpg")
  {
    OneLetterStem("a.CR2", 'a', "CR2", "a.jpg");
  }

  lemma UnpairedBWithUndefined()
    ensures SafeStem("b.CR2") && !HasSameFile("b.CR2", "undefined")
  {
    OneLetterStem("b.CR2", 'b', "CR2", "undefined");
  }

  lemma SafeAJpg()
    ensures SafeStem("a.jpg")
  {
    OneLetterStem("a.jpg", 'a', "jpg", "a.CR2");
  }

  lemma UnpairedAWithB()
    ensures SafeStem("a.CR2") && !HasSameFile("a.CR2", "b.jpg")
  {
    OneLetterStem("a.CR2", 'a', "CR2", "b.jpg");
  }

  lemma UnpairedBWithC()
    ensures SafeStem("b.CR2") && !HasSameFile("b.CR2", "c.jpg")
  {
    OneLetterStem("b.CR2", 'b', "CR2", "c.jpg");
  }

  lemma UnpairedCWithUndefined()
    ensures SafeStem("c.CR2") && !HasSameFile("c.CR2", "undefined")
  {
    OneLetterStem("c.CR2", 'c', "CR2", "undefined");
  }

  lemma SafeBJpg()
    ensures SafeStem("b.jpg")
  {
    OneLetterStem("b.jpg", 'b', "jpg", "");
  }

  lemma SafeCJpg()
    ensures SafeStem("c.jpg")
  {
    OneLetterStem("c.jpg", 'c', "jpg", "");
  }

  /** `Unpaired` decides the last position after the others. */
  lemma UnpairedLast(files: seq<Name>, others: seq<Name>)
    requires AllSafe(files) && files != []
    ensures AllSafe(files[..|files| - 1])
    ensures Unpaired(files, others)
         == Unpaired(files[..|files| - 1], others)
          + (if Kept(files, others, |files| - 1) then [files[|files| - 1]] else [])
  {
  }

  /** `Unpaired` decides an appended file after the others. */
  lemma UnpairedSnoc(front: seq<Name>, x: Name, others: seq<Name>)
    requires AllSafe(front) && SafeStem(x)
    ensures AllSafe(front + [x])
    ensures Unpaired(front + [x], others)
         == Unpaired(front, others) + (if Kept(front + [x], others, |front|) then [x] else [])
  {
    var xs := front + [x];
    assert AllSafe(xs) by {
      forall j | 0 <= j < |xs| ensures SafeStem(xs[j]) {
        if j < |front| { assert xs[j] == front[j]; }
      }
    }
    assert xs[..|front|] == front;
  }

  /** `Unpaired` of a one-element list. */
  lemma UnpairedOfOne(x0: Name, others: seq<Name>)
    requires SafeStem(x0)
    ensures AllSafe([x0])
    ensures Unpaired([x0], others) == if Kept([x0], others, 0) then [x0] else []
  {
    UnpairedLast([x0], others);
    assert [x0][..0] == [];
  }

  /** `Unpaired` of a two-element list, spelled out. */
  lemma UnpairedOfTwo(x0: Name, x1: Name, others: seq<Name>)
    requires SafeStem(x0) && SafeStem(x1)
    ensures AllSafe([x0, x1])
    ensures Unpaired([x0, x1], others)
         == (if Kept([x0, x1], others, 0) then [x0] else []) + (if Kept([x0, x1], others, 1) then [x1] else [])
  {
    var xs := [x0, x1];
    assert AllSafe(xs);
    UnpairedLast(xs, others);
    assert xs[..1] == [x0];
    UnpairedOfOne(x0, others);
    assert Kept([x0], others, 0) == Kept(xs, others, 0);
  }

  /** `Unpaired` of a three-element list, spelled out. */
  lemma UnpairedOfThree(x0: Name, x1: Name, x2: Name, others: seq<Name>)
    requires SafeStem(x0) && SafeStem(x1) && SafeStem(x2)
    ensures AllSafe([x0, x1, x2])
    ensures Unpaired([x0, x1, x2], others)
         == Unpaired([x0, x1], others) + (if Kept([x0, x1, x2], others, 2) then [x2] else [])
  {
    var front := [x0, x1];
    assert AllSafe(front);
    UnpairedSnoc(front, x2, others);
    assert front + [x2] == [x0, x1, x2];
  }

  /** Two raw files against one jpg file: the second raw file is deleted
      exactly when it is not paired with "undefined". */
  lemma {:induction false} TwoAgainstOne(x0: Name, x1: Name, y0: Name)
    requires SafeStem(x0) && SafeStem(x1) && SafeStem(y0)
    requires HasSameFile(x0, y0)
    ensures PlanSafe([x0, x1], [y0])
    ensures DeletionPlan([x0, x1], [y0])
         == Some((RawFolder, if HasSameFile(x1, "undefined") then [] else [x1]))
  {
    UnpairedOfTwo(x0, x1, [y0]);
    assert CompareAt([y0], 0) == y0 && CompareAt([y0], 1) == "undefined";
    assert !Kept([x0, x1], [y0], 0);
    assert Kept([x0, x1], [y0], 1) <==> !HasSameFile(x1, "undefined");
    assert Unpaired([x0, x1], [y0]) == if HasSameFile(x1, "undefined") then [] else [x1];
    assert OriginalDocumentFiles([x0, x1], [y0]) == Some(([x0, x1], [y0]));
    assert OriginalDocumentToDelete([x0, x1], [y0]).0 == Unpaired([x0, x1], [y0]);
  }

  /** Second run of the end-to-end scenario: raw = {a, b}, jpg = {a}; the raw
      folder has more files, and its unpaired `b.CR2` is deleted. */
  lemma SecondRunDeletesUnpairedRaw(raws: seq<Name>, jpgs: seq<Name>)
    requires raws == ["a.CR2", "b.CR2"] && jpgs == ["a.jpg"]
    ensures PlanSafe(raws, jpgs)
    ensures DeletionPlan(raws, jpgs) == Some((RawFolder, ["b.CR2"]))
  {
    PairedA();
    UnpairedBWithUndefined();
    SafeAJpg();
    TwoAgainstOne(raws[0], raws[1], jpgs[0]);
    assert raws == [raws[0], raws[1]] && jpgs == [jpgs[0]];
  }

  /** Three raw files against two jpg files, none paired at its position:
      the filter keeps all three. */
  lemma {:induction false} NoneKeptOfThree(x0: Name, x1: Name, x2: Name, y0: Name, y1: Name)
    requires SafeStem(x0) && SafeStem(x1) && SafeStem(x2)
    requires !HasSameFile(x0, y0) && !HasSameFile(x1, y1) && !HasSameFile(x2, "undefined")
    ensures AllSafe([x0, x1, x2]) && Unpaired([x0, x1, x2], [y0, y1]) == [x0, x1, x2]
  {
    var xs, ys := [x0, x1, x2], [y0, y1];
    UnpairedOfTwo(x0, x1, ys);
    UnpairedOfThree(x0, x1, x2, ys);
    assert CompareAt(ys, 0) == y0 && CompareAt(ys, 1) == y1 && CompareAt(ys, 2) == "undefined";
    assert Kept([x0, x1], ys, 0) && Kept([x0, x1], ys, 1) && Kept(xs, ys, 2);
  }

  /** With more raw files than jpg files, the plan deletes the raw side's
      list from the raw folder. */
  lemma ThreeAgainstTwo(x0: Name, x1: Name, x2: Name, y0: Name, y1: Name)
    requires SafeStem(x0) && SafeStem(x1) && SafeStem(x2) && SafeStem(y0) && SafeStem(y1)
    requires !HasSameFile(x0, y0) && !HasSameFile(x1, y1) && !HasSameFile(x2, "undefined")
    ensures PlanSafe([x0, x1, x2], [y0, y1])
    ensures DeletionPlan([x0, x1, x2], [y0, y1]) == Some((RawFolder, [x0, x1, x2]))
  {
    var xs, ys := [x0, x1, x2], [y0, y1];
    NoneKeptOfThree(x0, x1, x2, y0, y1);
    assert AllSafe(ys);
    assert OriginalDocumentFiles(xs, ys) == Some((xs, ys));
  }

  /** Pairing is by position, not by stem: with raw = {a, b, c} and
      jpg = {b, c}, `a` meets `b.jpg`, `b` meets `c.jpg` and `c` meets
      "undefined", so all three raw files are deleted although `b` and `c`
      have jpg partners. */
  lemma PairingIsByPosition(raws: seq<Name>, jpgs: seq<Name>)
    requires raws == ["a.CR2", "b.CR2", "c.CR2"] && jpgs == ["b.jpg", "c.jpg"]
    ensures PlanSafe(raws, jpgs)
    ensures DeletionPlan(raws, jpgs) == Some((RawFolder, raws))
  {
    UnpairedAWithB();
    UnpairedBWithC();
    UnpairedCWithUndefined();
    SafeBJpg();
    SafeCJpg();
    ThreeAgainstTwo(raws[0], raws[1], raws[2], jpgs[0], jpgs[1]);
    assert raws == [raws[0], raws[1], raws[2]] && jpgs == [jpgs[0], jpgs[1]];
  }
}
