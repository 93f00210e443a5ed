/**
 * What each step of the tool does to the disk, as functions of the state
 * before it.  The `App` methods are proved to have exactly these effects,
 * and the properties of a run are proved about these functions.
 *
 * Each function's precondition is what keeps Node from throwing during the
 * step: `mkdirSync` on a taken name or under a non-directory,
 * `readdirSync` of a missing folder, `renameSync` into a missing folder or
 * onto a directory, `unlinkSync` of something that is not a file, and
 * `new RegExp` on a stem with metacharacters.  A step that also changes
 * `isDeleteNonContrastFiles` returns an `Outcome`.
 */
module Steps {
  import opened AbstractFs
  import opened PictureTypes
  import opened StringOrder
  import opened Patterns
  import opened Classifier
  import opened Reconciler
  import opened Folds

  /** The part of the `App` state a step changes. */
  datatype Outcome = Outcome(fs: Fs, isDeleteNonContrastFiles: bool)

  /** A strictly sorted list names each entry once. */
  lemma SortedIsDistinct(s: seq<Name>)
    requires StrictlySorted(s)
    ensures Distinct(s)
  {
  }

  /** The folder names pick the patterns by name: "raw" does not contain
      "jpg", "jpg" does. */
  lemma FolderPatterns()
    ensures PatternFor(RAW) == RawPattern && PatternFor(JPG) == JpgPattern
  {
    assert OccursAt(JPG_TOKEN, JPG, 0);
    assert RAW[0..3][0] == 'r';
  }

  // addDirectories

  /** `mkdirSync` throws on a name that is taken, so when the archive folder
      is missing every folder to create must be new and named once. */
  ghost predicate AddDirectoriesSafe(fs: Fs, dirNames: seq<Name>, isOriginalDocumentDir: bool) {
    && WellFormed(fs)
    && (!isOriginalDocumentDir ==> FreshNames(fs[[]], dirNames))
  }

  /** `addDirectories`: when the archive folder was already there the
      callback of `every` refuses the first name and nothing is created;
      otherwise every folder is created at the working directory.  The flag
      becomes "some name was refused". */
  function AfterAddDirectories(fs: Fs, dirNames: seq<Name>, isOriginalDocumentDir: bool): (r: Outcome)
    requires AddDirectoriesSafe(fs, dirNames, isOriginalDocumentDir)
    ensures WellFormed(r.fs)
  {
    if isOriginalDocumentDir && dirNames != [] then Outcome(fs, true)
    else Outcome(MkdirAll(fs, [], dirNames), false)
  }

  /** What `addDirectories` leaves: with the archive folder already there,
      the disk as it was and the flag set; otherwise the folders of
      `dirNames` added at the working directory, every other entry and
      folder unchanged, and the flag clear. */
  lemma AddDirectoriesEffect(fs: Fs, dirNames: seq<Name>, isOriginalDocumentDir: bool)
    requires AddDirectoriesSafe(fs, dirNames, isOriginalDocumentDir)
    ensures var r := AfterAddDirectories(fs, dirNames, isOriginalDocumentDir);
      && (r.isDeleteNonContrastFiles <==> isOriginalDocumentDir && dirNames != [])
      && (isOriginalDocumentDir ==> r.fs == fs)
      && fs.Keys <= r.fs.Keys
      && (forall n :: n in r.fs[[]] <==> n in fs[[]] || (!isOriginalDocumentDir && n in dirNames))
      && (forall n :: n in fs[[]] ==> r.fs[[]][n] == fs[[]][n])
      && (forall p :: p in fs && p != [] ==> r.fs[p] == fs[p])
  {
    if !isOriginalDocumentDir {
      MkdirAllEffect(fs, [], dirNames);
    }
  }

  /** Without the archive folder, each folder of `dirNames` is created empty. */
  lemma AddDirectoriesCreates(fs: Fs, dirNames: seq<Name>)
    requires AddDirectoriesSafe(fs, dirNames, false)
    ensures var r := AfterAddDirectories(fs, dirNames, false);
      forall n :: n in dirNames ==> n in r.fs[[]] && r.fs[[]][n] == Dir && [n] in r.fs && r.fs[[n]] == map[]
  {
    var r := MkdirAll(fs, [], dirNames);
    forall n | n in dirNames ensures n in r[[]] && r[[]][n] == Dir && [n] in r && r[[n]] == map[] {
      MkdirAllCreated(fs, [], dirNames, n);
      assert [] + [n] == [n];
    }
  }

  // addRawDirectories

  /** How many of `names`, from the first, are not entries of `l`: where
      `every` stops. */
  function AbsentPrefix(l: Listing, names: seq<Name>): (c: nat)
    ensures c <= |names|
    ensures forall i :: 0 <= i < c ==> names[i] !in l
    ensures c < |names| ==> names[c] in l
  {
    if names == [] || names[0] in l then 0
    else 1 + AbsentPrefix(l, names[1..])
  }

  /** One round of the `every` of `addRawDirectories`, with the sub-folders
      before position `i` created: the next one exists exactly when it was
      there at the start, and then `every` stops at the position
      `AbsentPrefix` names; otherwise creating it extends `MkdirAll`. */
  lemma RawDirectoryStep(fs: Fs, i: nat)
    requires WellFormed(fs) && ARCHIVE_DIR in fs
    requires i < |ORIGINAL_DOCUMENT_DIR_NAMES| && i <= AbsentPrefix(fs[ARCHIVE_DIR], ORIGINAL_DOCUMENT_DIR_NAMES)
    requires FreshNames(fs[ARCHIVE_DIR], ORIGINAL_DOCUMENT_DIR_NAMES[..i])
    ensures var names, l := ORIGINAL_DOCUMENT_DIR_NAMES, fs[ARCHIVE_DIR];
      var disk := MkdirAll(fs, ARCHIVE_DIR, names[..i]);
      && (Exists(disk, ARCHIVE_DIR + [names[i]]) <==> names[i] in l)
      && (names[i] in l ==> i == AbsentPrefix(l, names))
      && (names[i] !in l ==>
            && i + 1 <= AbsentPrefix(l, names)
            && FreshNames(l, names[..i + 1])
            && names[i] !in disk[ARCHIVE_DIR]
            && Mkdir(disk, ARCHIVE_DIR, names[i]) == MkdirAll(fs, ARCHIVE_DIR, names[..i + 1]))
  {
    var names, l := ORIGINAL_DOCUMENT_DIR_NAMES, fs[ARCHIVE_DIR];
    var path := ARCHIVE_DIR + [names[i]];
    assert Parent(path) == ARCHIVE_DIR && Last(path) == names[i];
    assert names[i] !in names[..i] by {
      assert RAW != JPG by { assert RAW[0] != JPG[0]; }
    }
    if names[i] !in l {
      MkdirAllExtend(fs, ARCHIVE_DIR, names, i);
    }
  }

  /** `hasDirectory(ORIGINAL_DOCUMENT)` is `existsSync`, true for a file of
      that name too; `mkdirSync` below a file throws, so the archive entry,
      when there is one, must be a folder. */
  ghost predicate AddRawDirectoriesSafe(fs: Fs) {
    WellFormed(fs) && (ORIGINAL_DOCUMENT in fs[[]] ==> fs[[]][ORIGINAL_DOCUMENT] == Dir)
  }

  /** The sub-folders `addRawDirectories` creates: those before the first
      one that exists, from "raw" on; they are new and named once. */
  function RawDirectoriesToCreate(fs: Fs): (created: seq<Name>)
    requires ARCHIVE_DIR in fs
    ensures created == if RAW in fs[ARCHIVE_DIR] then [] else if JPG in fs[ARCHIVE_DIR] then [RAW] else [RAW, JPG]
    ensures FreshNames(fs[ARCHIVE_DIR], created)
  {
    var l := fs[ARCHIVE_DIR];
    assert ORIGINAL_DOCUMENT_DIR_NAMES[1..] == [JPG] && [JPG][1..] == [];
    assert AbsentPrefix(l, []) == 0;
    assert AbsentPrefix(l, [JPG]) == if JPG in l then 0 else 1;
    assert RAW != JPG by { assert RAW[0] != JPG[0]; }
    ORIGINAL_DOCUMENT_DIR_NAMES[..AbsentPrefix(l, ORIGINAL_DOCUMENT_DIR_NAMES)]
  }

  /** `addRawDirectories`: nothing happens without the archive folder;
      otherwise "raw" and then "jpg" are created, stopping at the first
      that exists, and the flag becomes "one of them existed". */
  function AfterAddRawDirectories(fs: Fs, isDeleteNonContrastFiles: bool): (r: Outcome)
    requires AddRawDirectoriesSafe(fs)
    ensures WellFormed(r.fs)
  {
    if !Exists(fs, ARCHIVE_DIR) then Outcome(fs, isDeleteNonContrastFiles)
    else
      DirectoryIsKnown(fs, ARCHIVE_DIR);
      var created := RawDirectoriesToCreate(fs);
      Outcome(MkdirAll(fs, ARCHIVE_DIR, created), |created| < |ORIGINAL_DOCUMENT_DIR_NAMES|)
  }

  /** `addRawDirectories` changes nothing without the archive folder, and
      otherwise touches the archive folder's listing only (and adds the
      folders it creates). */
  lemma AddRawDirectoriesFrame(fs: Fs, isDeleteNonContrastFiles: bool)
    requires AddRawDirectoriesSafe(fs)
    ensures var r := AfterAddRawDirectories(fs, isDeleteNonContrastFiles);
      && fs.Keys <= r.fs.Keys
      && (!Exists(fs, ARCHIVE_DIR) ==> r == Outcome(fs, isDeleteNonContrastFiles))
      && (forall p :: p in fs && p != ARCHIVE_DIR ==> r.fs[p] == fs[p])
  {
    if Exists(fs, ARCHIVE_DIR) {
      DirectoryIsKnown(fs, ARCHIVE_DIR);
      MkdirAllEffect(fs, ARCHIVE_DIR, RawDirectoriesToCreate(fs));
    }
  }

  /** The flag is set exactly when "raw" or "jpg" already existed in the
      archive folder, and an existing "raw" leaves the disk as it was (the
      `every` stops before "jpg" is looked at). */
  lemma AddRawDirectoriesFlag(fs: Fs, isDeleteNonContrastFiles: bool)
    requires AddRawDirectoriesSafe(fs) && Exists(fs, ARCHIVE_DIR)
    ensures ARCHIVE_DIR in fs
    ensures var r := AfterAddRawDirectories(fs, isDeleteNonContrastFiles);
      && (r.isDeleteNonContrastFiles <==> RAW in fs[ARCHIVE_DIR] || JPG in fs[ARCHIVE_DIR])
      && (RAW in fs[ARCHIVE_DIR] ==> r.fs == fs)
  {
    DirectoryIsKnown(fs, ARCHIVE_DIR);
  }

  /** A missing "raw" is created empty, and so is "jpg" when both were
      missing. */
  lemma AddRawDirectoriesCreates(fs: Fs, isDeleteNonContrastFiles: bool)
    requires AddRawDirectoriesSafe(fs) && Exists(fs, ARCHIVE_DIR)
    ensures ARCHIVE_DIR in fs
    ensures var r := AfterAddRawDirectories(fs, isDeleteNonContrastFiles);
      && (RAW !in fs[ARCHIVE_DIR] ==> RAW_DIR in r.fs && r.fs[RAW_DIR] == map[])
      && (RAW !in fs[ARCHIVE_DIR] && JPG !in fs[ARCHIVE_DIR] ==> JPG_DIR in r.fs && r.fs[JPG_DIR] == map[])
  {
    DirectoryIsKnown(fs, ARCHIVE_DIR);
    CreatedSubfolders(fs, RawDirectoriesToCreate(fs));
  }

  /** The archive folder keeps every entry it had, and gains at most "raw"
      and "jpg". */
  lemma AddRawDirectoriesKeepsArchive(fs: Fs, isDeleteNonContrastFiles: bool)
    requires AddRawDirectoriesSafe(fs) && Exists(fs, ARCHIVE_DIR)
    ensures ARCHIVE_DIR in fs
    ensures var r := AfterAddRawDirectories(fs, isDeleteNonContrastFiles);
      && (forall n :: n in fs[ARCHIVE_DIR] ==> n in r.fs[ARCHIVE_DIR] && r.fs[ARCHIVE_DIR][n] == fs[ARCHIVE_DIR][n])
      && (forall n :: n in r.fs[ARCHIVE_DIR] && n != RAW && n != JPG ==> n in fs[ARCHIVE_DIR])
  {
    DirectoryIsKnown(fs, ARCHIVE_DIR);
    var created := RawDirectoriesToCreate(fs);
    assert forall n :: n in created ==> n == RAW || n == JPG;
    MkdirAllEffect(fs, ARCHIVE_DIR, created);
    assert AfterAddRawDirectories(fs, isDeleteNonContrastFiles).fs == MkdirAll(fs, ARCHIVE_DIR, created);
  }

  /** The sub-folders created by `MkdirAll` in the archive folder. */
  lemma CreatedSubfolders(fs: Fs, created: seq<Name>)
    requires WellFormed(fs) && ARCHIVE_DIR in fs && FreshNames(fs[ARCHIVE_DIR], created)
    ensures var r := MkdirAll(fs, ARCHIVE_DIR, created);
      && (RAW in created ==> RAW_DIR in r && r[RAW_DIR] == map[])
      && (JPG in created ==> JPG_DIR in r && r[JPG_DIR] == map[])
  {
    MkdirAllEffect(fs, ARCHIVE_DIR, created);
    assert ARCHIVE_DIR + [RAW] == RAW_DIR && ARCHIVE_DIR + [JPG] == JPG_DIR;
  }

  // moveFiles and movePictureFiles

  /** `renameSync` throws when the target folder is missing or holds a
      folder of the file's name; `moveFiles` only calls it when there is
      something to move. */
  ghost predicate MoveFilesSafe(fs: Fs, target: Path, p: Pattern) {
    && WellFormed(fs) && target != []
    && var files := ListFiles(fs[[]], p);
       && (files != [] ==> target in fs)
       && (forall f :: f in files ==> f !in fs[target] || fs[target][f] == File)
  }

  /** The files `getFiles` lists can be renamed one by one. */
  lemma ListedFilesMovable(fs: Fs, target: Path, p: Pattern)
    requires MoveFilesSafe(fs, target, p)
    ensures Movable(fs, ListFiles(fs[[]], p), target)
  {
    SortedIsDistinct(ListFiles(fs[[]], p));
  }

  /** `moveFiles(target, p)`: every file of the working directory that `p`
      lists is renamed into `target`, in the listed order. */
  function AfterMoveFiles(fs: Fs, target: Path, p: Pattern): (r: Fs)
    requires MoveFilesSafe(fs, target, p)
    ensures WellFormed(r) && r.Keys == fs.Keys
  {
    var files := ListFiles(fs[[]], p);
    SortedIsDistinct(files);
    MoveAll(fs, files, target)
  }

  /** What `moveFiles` leaves: the working directory without the files the
      pattern matches and otherwise as it was; the target with those files
      added (replacing files of the same name) and otherwise as it was;
      every other folder unchanged. */
  lemma MoveFilesEffect(fs: Fs, target: Path, p: Pattern)
    requires MoveFilesSafe(fs, target, p)
    ensures var r := AfterMoveFiles(fs, target, p);
      && (forall n :: n in r[[]] <==> n in fs[[]] && !IsMatchingFile(fs[[]], n, p))
      && (forall n :: n in r[[]] ==> r[[]][n] == fs[[]][n])
      && (target in fs ==> forall n :: n in r[target] <==> n in fs[target] || IsMatchingFile(fs[[]], n, p))
      && (target in fs ==> forall n :: n in r[target] ==> r[target][n] == if IsMatchingFile(fs[[]], n, p) then File else fs[target][n])
      && (target !in fs ==> r == fs)
      && (forall q :: q in fs && q != [] && q != target ==> r[q] == fs[q])
  {
    var files := ListFiles(fs[[]], p);
    SortedIsDistinct(files);
    MoveAllFrame(fs, files, target);
  }

  /** The raw files go first, so a name both patterns match ends up in the
      raw folder; the jpg listing is taken after the raw files have left. */
  function AfterMoveRawFiles(fs: Fs): (r: Fs)
    requires MoveFilesSafe(fs, RAW_DIR, PatternFor(RAW))
    ensures WellFormed(r)
  {
    AfterMoveFiles(fs, RAW_DIR, PatternFor(RAW))
  }

  ghost predicate MovePictureFilesSafe(fs: Fs) {
    && MoveFilesSafe(fs, RAW_DIR, PatternFor(RAW))
    && MoveFilesSafe(AfterMoveRawFiles(fs), JPG_DIR, PatternFor(JPG))
  }

  /** `movePictureFiles`: `moveFiles` for "raw" and then for "jpg", each
      with the pattern its folder name picks. */
  function AfterMovePictureFiles(fs: Fs): (r: Fs)
    requires MovePictureFilesSafe(fs)
    ensures WellFormed(r)
  {
    AfterMoveFiles(AfterMoveRawFiles(fs), JPG_DIR, PatternFor(JPG))
  }

  lemma ArchivePathsDiffer()
    ensures RAW_DIR != JPG_DIR && RAW_DIR != [] && JPG_DIR != []
    ensures RAW_DIR[1] == RAW && JPG_DIR[1] == JPG && RAW != JPG
    ensures ARCHIVE_DIR + [RAW] == RAW_DIR && ARCHIVE_DIR + [JPG] == JPG_DIR
  {
    assert RAW_DIR[1][0] != JPG_DIR[1][0];
  }

  /** Two `moveFiles` calls in a row, into different folders: the working
      directory loses what either pattern lists, the first folder gains
      what the first pattern lists, the second what only the second lists. */
  lemma SequentialMoves(fs: Fs, t1: Path, p1: Pattern, t2: Path, p2: Pattern)
    requires t1 != t2
    requires MoveFilesSafe(fs, t1, p1)
    requires MoveFilesSafe(AfterMoveFiles(fs, t1, p1), t2, p2)
    ensures var r := AfterMoveFiles(AfterMoveFiles(fs, t1, p1), t2, p2);
      && r.Keys == fs.Keys
      && (forall n :: n in r[[]] <==> n in fs[[]] && !IsMatchingFile(fs[[]], n, p1) && !IsMatchingFile(fs[[]], n, p2))
      && (forall n :: n in r[[]] ==> r[[]][n] == fs[[]][n])
      && (forall n :: !IsMatchingFile(r[[]], n, p1) && !IsMatchingFile(r[[]], n, p2))
      && (t1 in fs ==> forall n :: n in r[t1] <==> n in fs[t1] || IsMatchingFile(fs[[]], n, p1))
      && (t2 in fs ==> forall n :: n in r[t2] <==>
            n in fs[t2] || (IsMatchingFile(fs[[]], n, p2) && !IsMatchingFile(fs[[]], n, p1)))
      && (forall q :: q in fs && q != [] && q != t1 && q != t2 ==> r[q] == fs[q])
  {
    var m := AfterMoveFiles(fs, t1, p1);
    MoveFilesEffect(fs, t1, p1);
    MoveFilesEffect(m, t2, p2);
    var r := AfterMoveFiles(m, t2, p2);
    forall n ensures IsMatchingFile(m[[]], n, p2) <==> IsMatchingFile(fs[[]], n, p2) && !IsMatchingFile(fs[[]], n, p1) {
      if n in m[[]] { assert m[[]][n] == fs[[]][n]; }
    }
    forall n ensures !IsMatchingFile(r[[]], n, p1) && !IsMatchingFile(r[[]], n, p2) {
      if n in r[[]] { assert r[[]][n] == fs[[]][n]; }
    }
  }

  /** What `movePictureFiles` leaves at the working directory: exactly the
      entries that were not pictures, unchanged. */
  lemma MovePictureFilesClearsRoot(fs: Fs)
    requires MovePictureFilesSafe(fs)
    ensures var r := AfterMovePictureFiles(fs);
      && (forall n :: n in r[[]] <==> n in fs[[]] && !IsPicture(fs[[]], n))
      && (forall n :: n in r[[]] ==> r[[]][n] == fs[[]][n])
  {
    FolderPatterns();
    ArchivePathsDiffer();
    SequentialMoves(fs, RAW_DIR, RawPattern, JPG_DIR, JpgPattern);
  }

  /** After `movePictureFiles` no picture of either kind is left at the
      working directory. */
  lemma MovePictureFilesLeavesNoPicture(fs: Fs)
    requires MovePictureFilesSafe(fs)
    ensures forall n: Name :: !IsPicture(AfterMovePictureFiles(fs)[[]], n)
  {
    FolderPatterns();
    ArchivePathsDiffer();
    SequentialMoves(fs, RAW_DIR, RawPattern, JPG_DIR, JpgPattern);
  }

  /** What `movePictureFiles` leaves in the archive: the raw folder gains
      the raw files, the jpg folder the jpg files that are not raw files,
      both keep every entry they had, and no other folder changes. */
  lemma MovePictureFilesFillsArchive(fs: Fs)
    requires MovePictureFilesSafe(fs)
    ensures var r := AfterMovePictureFiles(fs);
      && r.Keys == fs.Keys
      && (RAW_DIR in fs ==> forall n :: n in r[RAW_DIR] <==> n in fs[RAW_DIR] || IsMatchingFile(fs[[]], n, RawPattern))
      && (JPG_DIR in fs ==> forall n :: n in r[JPG_DIR] <==>
            n in fs[JPG_DIR] || (IsMatchingFile(fs[[]], n, JpgPattern) && !IsMatchingFile(fs[[]], n, RawPattern)))
      && (forall q :: q in fs && q != [] && q != RAW_DIR && q != JPG_DIR ==> r[q] == fs[q])
  {
    FolderPatterns();
    ArchivePathsDiffer();
    SequentialMoves(fs, RAW_DIR, RawPattern, JPG_DIR, JpgPattern);
  }

  // deleteNonContrastFiles

  /** `getFiles` of an archive sub-folder with the pattern its name picks. */
  function ArchiveFiles(fs: Fs, dirName: Name): (r: seq<Name>)
    requires [ORIGINAL_DOCUMENT, dirName] in fs
    ensures StrictlySorted(r)
  {
    ListFiles(fs[[ORIGINAL_DOCUMENT, dirName]], PatternFor(dirName))
  }

  /** The folder `getOriginalDocumentPath` names. */
  function FolderOf(t: Target): Path {
    match t
    case RawFolder => RAW_DIR
    case JpgFolder => JPG_DIR
  }

  /** `readdirSync` throws on a missing folder, and both sub-folders are
      listed; every stem compared must be usable as a pattern. */
  ghost predicate DeleteNonContrastFilesSafe(fs: Fs) {
    && WellFormed(fs) && RAW_DIR in fs && JPG_DIR in fs
    && PlanSafe(ArchiveFiles(fs, RAW), ArchiveFiles(fs, JPG))
  }

  /** `deleteNonContrastFiles`: the files the plan names are deleted from
      the folder it names, in order; without a plan nothing happens. */
  function AfterDeleteNonContrastFiles(fs: Fs): (r: Fs)
    requires DeleteNonContrastFilesSafe(fs)
    ensures WellFormed(r) && r.Keys == fs.Keys
  {
    var raws, jpgs := ArchiveFiles(fs, RAW), ArchiveFiles(fs, JPG);
    match DeletionPlan(raws, jpgs)
    case None => fs
    case Some((t, files)) =>
      DeletionTargetsMajority(raws, jpgs);
      var dir := FolderOf(t);
      assert StrictlySorted(files);
      SortedIsDistinct(files);
      assert forall f :: f in files ==> f in ArchiveFiles(fs, dir[1]);
      UnlinkAll(fs, dir, files)
  }

  /** What `deleteNonContrastFiles` leaves: without a plan the disk as it
      was; with one, the folder it names without the files it lists and
      every other folder unchanged. */
  lemma DeleteNonContrastFilesEffect(fs: Fs)
    requires DeleteNonContrastFilesSafe(fs)
    ensures var plan := DeletionPlan(ArchiveFiles(fs, RAW), ArchiveFiles(fs, JPG));
      var r := AfterDeleteNonContrastFiles(fs);
      && (plan.None? ==> r == fs)
      && (plan.Some? ==>
        var dir := FolderOf(plan.value.0);
        && (forall n :: n in r[dir] <==> n in fs[dir] && n !in plan.value.1)
        && (forall n :: n in r[dir] ==> r[dir][n] == fs[dir][n])
        && (forall q :: q in fs && q != dir ==> r[q] == fs[q]))
  {
    var raws, jpgs := ArchiveFiles(fs, RAW), ArchiveFiles(fs, JPG);
    match DeletionPlan(raws, jpgs)
    case None =>
    case Some((t, files)) =>
      DeletionTargetsMajority(raws, jpgs);
      SortedIsDistinct(files);
      UnlinkAllFrame(fs, FolderOf(t), files);
  }

  /** Every file `deleteNonContrastFiles` deletes is a picture of the
      folder with more pictures, and is on the plan's list. */
  lemma DeletesOnlyListedPictures(fs: Fs, n: Name)
    requires DeleteNonContrastFilesSafe(fs)
    requires DeletionPlan(ArchiveFiles(fs, RAW), ArchiveFiles(fs, JPG)).Some?
    ensures var raws, jpgs := ArchiveFiles(fs, RAW), ArchiveFiles(fs, JPG);
      var (t, files) := DeletionPlan(raws, jpgs).value;
      var dir := FolderOf(t);
      && (t == RawFolder <==> |jpgs| < |raws|)
      && (n in fs[dir] && n !in AfterDeleteNonContrastFiles(fs)[dir] ==>
            n in files && IsMatchingFile(fs[dir], n, PatternFor(dir[1])))
  {
    var raws, jpgs := ArchiveFiles(fs, RAW), ArchiveFiles(fs, JPG);
    DeletionTargetsMajority(raws, jpgs);
    DeleteNonContrastFilesEffect(fs);
  }

  /** `deleteNonContrastFiles` changes no listing but the two archive
      sub-folders'. */
  lemma DeleteNonContrastFilesFrame(fs: Fs)
    requires DeleteNonContrastFilesSafe(fs)
    ensures var r := AfterDeleteNonContrastFiles(fs);
      forall q :: q in fs && q != RAW_DIR && q != JPG_DIR ==> r[q] == fs[q]
  {
    DeleteNonContrastFilesEffect(fs);
    var plan := DeletionPlan(ArchiveFiles(fs, RAW), ArchiveFiles(fs, JPG));
    if plan.Some? {
      assert FolderOf(plan.value.0) == RAW_DIR || FolderOf(plan.value.0) == JPG_DIR;
    }
  }

  /** `getOriginalDocumentFiles` lists the raw folder with the raw pattern
      and the jpg folder with the jpg pattern.  With equal counts, or an
      empty side, nothing is deleted; otherwise the plan is drawn from
      exactly those two listings. */
  lemma ArchiveListingsDecidePlan(fs: Fs)
    requires DeleteNonContrastFilesSafe(fs)
    ensures var raws, jpgs := ListFiles(fs[RAW_DIR], RawPattern), ListFiles(fs[JPG_DIR], JpgPattern);
      var noPlan := |jpgs| == |raws| || |jpgs| == 0 || |raws| == 0;
      && ArchiveFiles(fs, RAW) == raws && ArchiveFiles(fs, JPG) == jpgs
      && (noPlan ==> AfterDeleteNonContrastFiles(fs) == fs)
      && (!noPlan ==>
            && DeletionPlan(raws, jpgs).Some?
            && DeletionPlan(raws, jpgs).value ==
                 if |jpgs| < |raws| then (RawFolder, Unpaired(raws, jpgs)) else (JpgFolder, Unpaired(jpgs, raws)))
  {
    FolderPatterns();
    DeleteNonContrastFilesEffect(fs);
  }

  // start

  /** `addDirectories` followed by `addRawDirectories`. */
  ghost predicate ProvisionSafe(fs: Fs, dirNames: seq<Name>, isOriginalDocumentDir: bool) {
    && AddDirectoriesSafe(fs, dirNames, isOriginalDocumentDir)
    && AddRawDirectoriesSafe(AfterAddDirectories(fs, dirNames, isOriginalDocumentDir).fs)
  }

  function AfterProvision(fs: Fs, dirNames: seq<Name>, isOriginalDocumentDir: bool): (r: Outcome)
    requires ProvisionSafe(fs, dirNames, isOriginalDocumentDir)
    ensures WellFormed(r.fs)
  {
    var s := AfterAddDirectories(fs, dirNames, isOriginalDocumentDir);
    AfterAddRawDirectories(s.fs, s.isDeleteNonContrastFiles)
  }

  /** `deleteNonContrastFiles` runs on the second kind of run only: no
      pictures at the working directory and the flag set. */
  predicate DeletionRuns(isRootPictureFiles: bool, isDeleteNonContrastFiles: bool) {
    !isRootPictureFiles && isDeleteNonContrastFiles
  }

  /** The disk `movePictureFiles` starts from: the provisioned disk, after
      `deleteNonContrastFiles` when that runs. */
  function BeforeMove(fs: Fs, dirNames: seq<Name>, isRootPictureFiles: bool, isOriginalDocumentDir: bool): (r: Fs)
    requires ProvisionSafe(fs, dirNames, isOriginalDocumentDir)
    requires var s := AfterProvision(fs, dirNames, isOriginalDocumentDir);
      DeletionRuns(isRootPictureFiles, s.isDeleteNonContrastFiles) ==> DeleteNonContrastFilesSafe(s.fs)
    ensures WellFormed(r)
  {
    var s := AfterProvision(fs, dirNames, isOriginalDocumentDir);
    if DeletionRuns(isRootPictureFiles, s.isDeleteNonContrastFiles) then AfterDeleteNonContrastFiles(s.fs) else s.fs
  }

  /** Every step of `start` can run without Node throwing. */
  ghost predicate StartSafe(fs: Fs, dirNames: seq<Name>, isRootPictureFiles: bool, isOriginalDocumentDir: bool) {
    || (!isRootPictureFiles && !isOriginalDocumentDir)
    || (&& ProvisionSafe(fs, dirNames, isOriginalDocumentDir)
        && var s := AfterProvision(fs, dirNames, isOriginalDocumentDir);
           && (DeletionRuns(isRootPictureFiles, s.isDeleteNonContrastFiles) ==> DeleteNonContrastFilesSafe(s.fs))
           && MovePictureFilesSafe(BeforeMove(fs, dirNames, isRootPictureFiles, isOriginalDocumentDir)))
  }

  /** `start`: nothing without pictures at the working directory or an
      archive folder; otherwise the folders are provisioned, the archive
      is reconciled on a second run, and the pictures are moved. */
  function AfterStart(fs: Fs, dirNames: seq<Name>, isRootPictureFiles: bool, isOriginalDocumentDir: bool): (r: Fs)
    requires StartSafe(fs, dirNames, isRootPictureFiles, isOriginalDocumentDir)
    ensures isRootPictureFiles || isOriginalDocumentDir ==> WellFormed(r)
  {
    if !isRootPictureFiles && !isOriginalDocumentDir then fs
    else AfterMovePictureFiles(BeforeMove(fs, dirNames, isRootPictureFiles, isOriginalDocumentDir))
  }

  /** A run that provisions and then moves, without deleting: what `start`
      requires, in terms of the provisioned disk. */
  lemma StartWithoutDeletion(fs: Fs, dirNames: seq<Name>, isRootPictureFiles: bool, isOriginalDocumentDir: bool)
    requires isRootPictureFiles || isOriginalDocumentDir
    requires ProvisionSafe(fs, dirNames, isOriginalDocumentDir)
    requires !DeletionRuns(isRootPictureFiles, AfterProvision(fs, dirNames, isOriginalDocumentDir).isDeleteNonContrastFiles)
    ensures BeforeMove(fs, dirNames, isRootPictureFiles, isOriginalDocumentDir) == AfterProvision(fs, dirNames, isOriginalDocumentDir).fs
    ensures StartSafe(fs, dirNames, isRootPictureFiles, isOriginalDocumentDir)
        <==> MovePictureFilesSafe(AfterProvision(fs, dirNames, isOriginalDocumentDir).fs)
  {
  }

  /** What such a run leaves: the provisioned disk after `movePictureFiles`. */
  lemma StartWithoutDeletionMoves(fs: Fs, dirNames: seq<Name>, isRootPictureFiles: bool, isOriginalDocumentDir: bool)
    requires isRootPictureFiles || isOriginalDocumentDir
    requires ProvisionSafe(fs, dirNames, isOriginalDocumentDir)
    requires !DeletionRuns(isRootPictureFiles, AfterProvision(fs, dirNames, isOriginalDocumentDir).isDeleteNonContrastFiles)
    requires MovePictureFilesSafe(AfterProvision(fs, dirNames, isOriginalDocumentDir).fs)
    ensures StartSafe(fs, dirNames, isRootPictureFiles, isOriginalDocumentDir)
    ensures AfterStart(fs, dirNames, isRootPictureFiles, isOriginalDocumentDir)
         == AfterMovePictureFiles(AfterProvision(fs, dirNames, isOriginalDocumentDir).fs)
  {
    StartWithoutDeletion(fs, dirNames, isRootPictureFiles, isOriginalDocumentDir);
  }
}
