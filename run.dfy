/**
 * Properties of a whole `start` run, proved on the step functions of
 * `Steps`.  The two flags `start` tests are the ones the constructor
 * computed: `isRootPictureFiles` is `HasPictureFiles` of the working
 * directory and `isOriginalDocumentDir` is `Exists(fs, ARCHIVE_DIR)` on
 * the disk `start` begins with.
 */
module RunProperties {
  import opened AbstractFs
  import opened PictureTypes
  import opened Patterns
  import opened Classifier
  import opened Reconciler
  import opened Folds
  import opened Steps

  /** Without pictures at the working directory and without an archive
      folder, `start` does nothing at all. */
  lemma IdleRunChangesNothing(fs: Fs, dirNames: seq<Name>)
    ensures StartSafe(fs, dirNames, false, false)
    ensures AfterStart(fs, dirNames, false, false) == fs
  {
  }

  /** On a disk without an archive folder, the archive folder and its
      sub-folders are not known directories. */
  lemma ArchiveAbsent(fs: Fs)
    requires WellFormed(fs) && ORIGINAL_DOCUMENT !in fs[[]]
    ensures !Exists(fs, ARCHIVE_DIR)
    ensures ARCHIVE_DIR !in fs && RAW_DIR !in fs && JPG_DIR !in fs
  {
    ArchivePathsDiffer();
    assert [] + [ORIGINAL_DOCUMENT] == ARCHIVE_DIR;
  }

  /** On a disk with the raw sub-folder, the archive folder is a folder of
      the working directory and lists "raw". */
  lemma ArchivePresent(fs: Fs)
    requires WellFormed(fs) && RAW_DIR in fs
    ensures ARCHIVE_DIR in fs && RAW in fs[ARCHIVE_DIR]
    ensures Exists(fs, ARCHIVE_DIR) && AddRawDirectoriesSafe(fs)
  {
    ArchivePathsDiffer();
    assert [] + [ORIGINAL_DOCUMENT] == ARCHIVE_DIR;
  }

  /** What the constructor's two flags lead to: after provisioning the flag
      is set exactly when the archive folder existed and already listed
      "raw" or "jpg"; on a first run `addRawDirectories` clears the flag
      `addDirectories` left clear, and when the archive held neither
      sub-folder it clears the flag `addDirectories` set. */
  lemma ProvisionFlag(fs: Fs, extra: seq<Name>, isOriginalDocumentDir: bool)
    requires isOriginalDocumentDir == Exists(fs, ARCHIVE_DIR)
    requires ProvisionSafe(fs, [ORIGINAL_DOCUMENT] + extra, isOriginalDocumentDir)
    ensures isOriginalDocumentDir ==> ARCHIVE_DIR in fs
    ensures AfterProvision(fs, [ORIGINAL_DOCUMENT] + extra, isOriginalDocumentDir).isDeleteNonContrastFiles
        <==> isOriginalDocumentDir && (RAW in fs[ARCHIVE_DIR] || JPG in fs[ARCHIVE_DIR])
  {
    var dirNames := [ORIGINAL_DOCUMENT] + extra;
    AddDirectoriesEffect(fs, dirNames, isOriginalDocumentDir);
    var a := AfterAddDirectories(fs, dirNames, isOriginalDocumentDir);
    if isOriginalDocumentDir {
      AddRawDirectoriesFlag(fs, true);
    } else {
      assert dirNames[0] == ORIGINAL_DOCUMENT;
      AddDirectoriesCreates(fs, dirNames);
      assert [] + [ORIGINAL_DOCUMENT] == ARCHIVE_DIR;
      assert Exists(a.fs, ARCHIVE_DIR);
      AddRawDirectoriesFlag(a.fs, false);
    }
  }

  /** `addRawDirectories` on an empty archive folder creates both
      sub-folders, empty, clears the flag and changes no other listing. */
  lemma EmptyArchiveProvision(a: Fs, isDeleteNonContrastFiles: bool)
    requires AddRawDirectoriesSafe(a) && Exists(a, ARCHIVE_DIR)
    requires ARCHIVE_DIR in a && a[ARCHIVE_DIR] == map[]
    ensures var r := AfterAddRawDirectories(a, isDeleteNonContrastFiles);
      && !r.isDeleteNonContrastFiles
      && RAW_DIR in r.fs && r.fs[RAW_DIR] == map[] && JPG_DIR in r.fs && r.fs[JPG_DIR] == map[]
      && a.Keys <= r.fs.Keys
      && (forall p :: p in a && p != ARCHIVE_DIR ==> r.fs[p] == a[p])
  {
    AddRawDirectoriesFlag(a, isDeleteNonContrastFiles);
    AddRawDirectoriesCreates(a, isDeleteNonContrastFiles);
    AddRawDirectoriesFrame(a, isDeleteNonContrastFiles);
  }

  /** `addDirectories` on a disk without an archive folder: the folders
      of `dirNames` are added at the working directory, the archive folder
      among them, empty, and every folder the disk had keeps its listing. */
  lemma FirstRunAddDirectories(fs: Fs, dirNames: seq<Name>)
    requires WellFormed(fs) && FreshNames(fs[[]], dirNames)
    requires dirNames != [] && dirNames[0] == ORIGINAL_DOCUMENT
    ensures ARCHIVE_DIR !in fs && RAW_DIR !in fs && JPG_DIR !in fs
    ensures var a := AfterAddDirectories(fs, dirNames, false).fs;
      && AddRawDirectoriesSafe(a) && Exists(a, ARCHIVE_DIR)
      && ARCHIVE_DIR in a && a[ARCHIVE_DIR] == map[]
      && (forall n :: n in a[[]] <==> n in fs[[]] || n in dirNames)
      && (forall n :: n in a[[]] ==> a[[]][n] == if n in dirNames then Dir else fs[[]][n])
      && (forall q :: q in fs && q != [] ==> q in a && a[q] == fs[q])
  {
    ArchiveAbsent(fs);
    AddDirectoriesEffect(fs, dirNames, false);
    AddDirectoriesCreates(fs, dirNames);
    assert ORIGINAL_DOCUMENT in dirNames;
    assert [] + [ORIGINAL_DOCUMENT] == ARCHIVE_DIR;
  }

  /** Provisioning on a disk without an archive folder: the folders of
      `dirNames` are added at the working directory, the archive folder
      gets both sub-folders, empty, the flag ends clear, and every folder
      the disk had keeps its listing. */
  lemma FirstRunProvision(fs: Fs, dirNames: seq<Name>)
    requires WellFormed(fs) && FreshNames(fs[[]], dirNames)
    requires dirNames != [] && dirNames[0] == ORIGINAL_DOCUMENT
    ensures ProvisionSafe(fs, dirNames, false)
    ensures var s := AfterProvision(fs, dirNames, false);
      && !s.isDeleteNonContrastFiles
      && RAW_DIR in s.fs && s.fs[RAW_DIR] == map[] && JPG_DIR in s.fs && s.fs[JPG_DIR] == map[]
      && (forall n :: n in s.fs[[]] <==> n in fs[[]] || n in dirNames)
      && (forall n :: n in s.fs[[]] ==> s.fs[[]][n] == if n in dirNames then Dir else fs[[]][n])
      && (forall q :: q in fs && q != [] ==> q in s.fs && s.fs[q] == fs[q])
  {
    FirstRunAddDirectories(fs, dirNames);
    var a := AfterAddDirectories(fs, dirNames, false).fs;
    EmptyArchiveProvision(a, false);
    var s := AfterProvision(fs, dirNames, false);
    assert s == AfterAddRawDirectories(a, false);
    assert s.fs[[]] == a[[]];
  }

  /** `movePictureFiles` into two empty archive sub-folders: the working
      directory keeps exactly what is not a picture, the raw folder holds
      exactly its raw files and the jpg folder exactly the jpg files that
      are not raw files; no other listing changes. */
  lemma MoveIntoEmptyArchive(s: Fs)
    requires WellFormed(s)
    requires RAW_DIR in s && s[RAW_DIR] == map[] && JPG_DIR in s && s[JPG_DIR] == map[]
    ensures MovePictureFilesSafe(s)
    ensures var r := AfterMovePictureFiles(s);
      && (forall n :: n in r[[]] <==> n in s[[]] && !IsPicture(s[[]], n))
      && (forall n :: n in r[RAW_DIR] <==> IsMatchingFile(s[[]], n, RawPattern))
      && (forall n :: n in r[JPG_DIR] <==> IsMatchingFile(s[[]], n, JpgPattern) && !IsMatchingFile(s[[]], n, RawPattern))
      && (forall q :: q in s && q != [] && q != RAW_DIR && q != JPG_DIR ==> r[q] == s[q])
  {
    FolderPatterns();
    ArchivePathsDiffer();
    assert MoveFilesSafe(s, RAW_DIR, RawPattern);
    MoveFilesEffect(s, RAW_DIR, RawPattern);
    var m := AfterMoveRawFiles(s);
    assert m[JPG_DIR] == map[];
    assert MoveFilesSafe(m, JPG_DIR, JpgPattern);
    MovePictureFilesClearsRoot(s);
    MovePictureFilesFillsArchive(s);
  }

  /** Adding new folders to a listing changes none of its matching files. */
  lemma FoldersAddNoPicture(l: Listing, r: Listing, names: seq<Name>, p: Pattern)
    requires forall n :: n in names ==> n !in l
    requires forall n :: n in r <==> n in l || n in names
    requires forall n :: n in r ==> r[n] == if n in names then Dir else l[n]
    ensures forall n :: IsMatchingFile(r, n, p) <==> IsMatchingFile(l, n, p)
  {
  }

  /** What is left of such a listing once its pictures are gone: what was
      left of `l`, and the new folders. */
  lemma FoldersAddNoPictures(l: Listing, r: Listing, names: seq<Name>)
    requires forall n :: n in names ==> n !in l
    requires forall n :: n in r <==> n in l || n in names
    requires forall n :: n in r ==> r[n] == if n in names then Dir else l[n]
    ensures forall n :: n in r && !IsPicture(r, n) <==> (n in l && !IsPicture(l, n)) || n in names
  {
    forall n ensures n in r && !IsPicture(r, n) <==> (n in l && !IsPicture(l, n)) || n in names {
      FoldersAddNoPicture(l, r, names, RawPattern);
      FoldersAddNoPicture(l, r, names, JpgPattern);
    }
  }

  /** `movePictureFiles` into two empty archive sub-folders, after new
      folders `names` were added to the working directory's listing `l`:
      the pictures are those of `l`. */
  lemma MoveAfterNewFolders(l: Listing, names: seq<Name>, s: Fs)
    requires WellFormed(s)
    requires RAW_DIR in s && s[RAW_DIR] == map[] && JPG_DIR in s && s[JPG_DIR] == map[]
    requires forall n :: n in names ==> n !in l
    requires forall n :: n in s[[]] <==> n in l || n in names
    requires forall n :: n in s[[]] ==> s[[]][n] == if n in names then Dir else l[n]
    ensures MovePictureFilesSafe(s)
    ensures var r := AfterMovePictureFiles(s);
      && RAW_DIR in r && JPG_DIR in r
      && (forall n :: n in r[[]] <==> (n in l && !IsPicture(l, n)) || n in names)
      && (forall n :: n in r[RAW_DIR] <==> IsMatchingFile(l, n, RawPattern))
      && (forall n :: n in r[JPG_DIR] <==> IsMatchingFile(l, n, JpgPattern) && !IsMatchingFile(l, n, RawPattern))
      && (forall q :: q in s && q != [] && q != RAW_DIR && q != JPG_DIR ==> r[q] == s[q])
  {
    MoveIntoEmptyArchive(s);
    FoldersAddNoPictures(l, s[[]], names);
    FoldersAddNoPicture(l, s[[]], names, RawPattern);
    FoldersAddNoPicture(l, s[[]], names, JpgPattern);
  }

  /** Where the pictures of a first run end up: provisioning and then
      `movePictureFiles`, on a disk without an archive folder. */
  lemma FirstRunMoves(fs: Fs, dirNames: seq<Name>)
    requires WellFormed(fs) && FreshNames(fs[[]], dirNames)
    requires dirNames != [] && dirNames[0] == ORIGINAL_DOCUMENT
    ensures ProvisionSafe(fs, dirNames, false)
    ensures MovePictureFilesSafe(AfterProvision(fs, dirNames, false).fs)
    ensures var r := AfterMovePictureFiles(AfterProvision(fs, dirNames, false).fs);
      && RAW_DIR in r && JPG_DIR in r
      && (forall n :: n in r[[]] <==> (n in fs[[]] && !IsPicture(fs[[]], n)) || n in dirNames)
      && (forall n :: n in r[RAW_DIR] <==> IsMatchingFile(fs[[]], n, RawPattern))
      && (forall n :: n in r[JPG_DIR] <==> IsMatchingFile(fs[[]], n, JpgPattern) && !IsMatchingFile(fs[[]], n, RawPattern))
      && (forall q :: q in fs && q != [] ==> q in r && r[q] == fs[q])
    ensures !Exists(fs, ARCHIVE_DIR)
  {
    ArchiveAbsent(fs);
    FirstRunProvision(fs, dirNames);
    var s := AfterProvision(fs, dirNames, false).fs;
    MoveAfterNewFolders(fs[[]], dirNames, s);
    var r := AfterMovePictureFiles(s);
    forall q | q in fs && q != [] ensures q in r && r[q] == fs[q] {
      assert q in s && s[q] == fs[q];
      assert q != RAW_DIR && q != JPG_DIR;
    }
  }

  /** A first run: on a disk without an archive folder and with the
      folders to create (the archive folder first) all new, `start` files
      every raw picture of the working directory into the raw folder and
      every other jpg picture into the jpg folder, leaves the rest of the
      working directory and every folder the disk had as they were, and
      adds the new folders. */
  lemma FirstRun(fs: Fs, dirNames: seq<Name>)
    requires WellFormed(fs) && FreshNames(fs[[]], dirNames)
    requires dirNames != [] && dirNames[0] == ORIGINAL_DOCUMENT
    ensures !Exists(fs, ARCHIVE_DIR)
    ensures StartSafe(fs, dirNames, true, false)
    ensures var r := AfterStart(fs, dirNames, true, false);
      && RAW_DIR in r && JPG_DIR in r
      && (forall n :: n in r[[]] <==> (n in fs[[]] && !IsPicture(fs[[]], n)) || n in dirNames)
      && (forall n :: n in r[RAW_DIR] <==> IsMatchingFile(fs[[]], n, RawPattern))
      && (forall n :: n in r[JPG_DIR] <==> IsMatchingFile(fs[[]], n, JpgPattern) && !IsMatchingFile(fs[[]], n, RawPattern))
      && (forall q :: q in fs && q != [] ==> q in r && r[q] == fs[q])
  {
    FirstRunMoves(fs, dirNames);
    StartWithoutDeletionMoves(fs, dirNames, true, false);
  }

  /** With no pictures at the working directory, `movePictureFiles` has
      nothing to move. */
  lemma NoPictureNoMove(s: Fs)
    requires WellFormed(s) && !HasPictureFiles(s[[]])
    ensures MovePictureFilesSafe(s) && AfterMovePictureFiles(s) == s
  {
    FolderPatterns();
  }

  /** A second run: with the archive's two sub-folders in place and no
      pictures at the working directory, provisioning changes nothing, sets
      the flag, and `start` amounts to `deleteNonContrastFiles`. */
  lemma SecondRun(fs: Fs, dirNames: seq<Name>)
    requires WellFormed(fs) && dirNames != [] && !HasPictureFiles(fs[[]])
    requires DeleteNonContrastFilesSafe(fs)
    ensures Exists(fs, ARCHIVE_DIR)
    ensures StartSafe(fs, dirNames, false, true)
    ensures AfterStart(fs, dirNames, false, true) == AfterDeleteNonContrastFiles(fs)
  {
    ArchivePresent(fs);
    AddDirectoriesEffect(fs, dirNames, true);
    AddRawDirectoriesFlag(fs, true);
    assert AfterProvision(fs, dirNames, true) == Outcome(fs, true);
    var d := AfterDeleteNonContrastFiles(fs);
    DeleteNonContrastFilesEffect(fs);
    ArchivePathsDiffer();
    assert d[[]] == fs[[]];
    NoPictureNoMove(d);
  }

  /** An archive with "raw" but without "jpg": `addRawDirectories` stops at
      "raw", so "jpg" is never created, and without pictures at the working
      directory `deleteNonContrastFiles` lists the missing folder, which
      throws. */
  lemma RawWithoutJpgFails(fs: Fs, dirNames: seq<Name>)
    requires WellFormed(fs) && dirNames != [] && RAW_DIR in fs
    requires ARCHIVE_DIR in fs && JPG !in fs[ARCHIVE_DIR]
    ensures Exists(fs, ARCHIVE_DIR)
    ensures !StartSafe(fs, dirNames, false, true)
  {
    ArchivePresent(fs);
    AddDirectoriesEffect(fs, dirNames, true);
    AddRawDirectoriesFlag(fs, true);
    assert AfterProvision(fs, dirNames, true) == Outcome(fs, true);
    ArchivePathsDiffer();
    assert JPG_DIR !in fs;
  }

  /** The same archive with a jpg picture at the working directory that is
      not a raw file: the raw files move first, and then `renameSync` into
      the missing jpg folder throws. */
  lemma RawWithoutJpgFailsToMove(fs: Fs, dirNames: seq<Name>, n: Name)
    requires WellFormed(fs) && dirNames != [] && RAW_DIR in fs
    requires ARCHIVE_DIR in fs && JPG !in fs[ARCHIVE_DIR]
    requires IsMatchingFile(fs[[]], n, JpgPattern) && !IsMatchingFile(fs[[]], n, RawPattern)
    ensures Exists(fs, ARCHIVE_DIR)
    ensures !StartSafe(fs, dirNames, true, true)
  {
    ArchivePresent(fs);
    AddDirectoriesEffect(fs, dirNames, true);
    AddRawDirectoriesFlag(fs, true);
    assert AfterProvision(fs, dirNames, true) == Outcome(fs, true);
    ArchivePathsDiffer();
    FolderPatterns();
    assert JPG_DIR !in fs;
    if MoveFilesSafe(fs, RAW_DIR, RawPattern) {
      MoveFilesEffect(fs, RAW_DIR, RawPattern);
      var m := AfterMoveRawFiles(fs);
      assert IsMatchingFile(m[[]], n, JpgPattern);
      assert n in ListFiles(m[[]], JpgPattern);
    }
  }

  /** `movePictureFiles` removes no entry outside the working directory. */
  lemma MoveKeepsEntries(s: Fs, q: Path, n: Name)
    requires MovePictureFilesSafe(s)
    requires q in s && q != [] && n in s[q]
    ensures var r := AfterMovePictureFiles(s);
      q in r && n in r[q]
  {
    MovePictureFilesFillsArchive(s);
    var r := AfterMovePictureFiles(s);
    if q != RAW_DIR && q != JPG_DIR {
      assert r[q] == s[q];
    }
  }

  /** Provisioning changes no listing but the working directory's and the
      archive folder's, and removes no known folder. */
  lemma ProvisionFrame(fs: Fs, dirNames: seq<Name>, isOriginalDocumentDir: bool)
    requires ProvisionSafe(fs, dirNames, isOriginalDocumentDir)
    ensures var s := AfterProvision(fs, dirNames, isOriginalDocumentDir).fs;
      && fs.Keys <= s.Keys
      && (forall q :: q in fs && q != [] && q != ARCHIVE_DIR ==> s[q] == fs[q])
  {
    var a := AfterAddDirectories(fs, dirNames, isOriginalDocumentDir);
    AddDirectoriesEffect(fs, dirNames, isOriginalDocumentDir);
    AddRawDirectoriesFrame(a.fs, a.isDeleteNonContrastFiles);
  }

  /** Provisioning and the deletions of a second run change no listing
      outside the working directory and the archive. */
  lemma BeforeMoveFrame(fs: Fs, dirNames: seq<Name>, isRootPictureFiles: bool, isOriginalDocumentDir: bool)
    requires ProvisionSafe(fs, dirNames, isOriginalDocumentDir)
    requires var s := AfterProvision(fs, dirNames, isOriginalDocumentDir);
      DeletionRuns(isRootPictureFiles, s.isDeleteNonContrastFiles) ==> DeleteNonContrastFilesSafe(s.fs)
    ensures var b := BeforeMove(fs, dirNames, isRootPictureFiles, isOriginalDocumentDir);
      && fs.Keys <= b.Keys
      && (forall q :: q in fs && q != [] && q != ARCHIVE_DIR && q != RAW_DIR && q != JPG_DIR ==> b[q] == fs[q])
  {
    ProvisionFrame(fs, dirNames, isOriginalDocumentDir);
    var s := AfterProvision(fs, dirNames, isOriginalDocumentDir);
    if DeletionRuns(isRootPictureFiles, s.isDeleteNonContrastFiles) {
      DeleteNonContrastFilesFrame(s.fs);
    }
  }

  /** Whatever the flags, `start` changes no folder outside the working
      directory and the archive, and removes no known folder. */
  lemma StartKeepsOtherFolders(fs: Fs, dirNames: seq<Name>, isRootPictureFiles: bool, isOriginalDocumentDir: bool)
    requires StartSafe(fs, dirNames, isRootPictureFiles, isOriginalDocumentDir)
    ensures var r := AfterStart(fs, dirNames, isRootPictureFiles, isOriginalDocumentDir);
      && fs.Keys <= r.Keys
      && (forall q :: q in fs && q != [] && q != ARCHIVE_DIR && q != RAW_DIR && q != JPG_DIR ==> r[q] == fs[q])
  {
    if isRootPictureFiles || isOriginalDocumentDir {
      BeforeMoveFrame(fs, dirNames, isRootPictureFiles, isOriginalDocumentDir);
      MovePictureFilesFillsArchive(BeforeMove(fs, dirNames, isRootPictureFiles, isOriginalDocumentDir));
    }
  }

  /** Provisioning removes no entry outside the working directory. */
  lemma ProvisionKeepsEntries(fs: Fs, dirNames: seq<Name>, isOriginalDocumentDir: bool, q: Path, n: Name)
    requires ProvisionSafe(fs, dirNames, isOriginalDocumentDir)
    requires q in fs && q != [] && n in fs[q]
    ensures var s := AfterProvision(fs, dirNames, isOriginalDocumentDir).fs;
      q in s && n in s[q]
  {
    var a := AfterAddDirectories(fs, dirNames, isOriginalDocumentDir);
    var s := AfterProvision(fs, dirNames, isOriginalDocumentDir);
    assert q in a.fs && a.fs[q] == fs[q] by {
      AddDirectoriesEffect(fs, dirNames, isOriginalDocumentDir);
    }
    AddRawDirectoriesFrame(a.fs, a.isDeleteNonContrastFiles);
    if q == ARCHIVE_DIR {
      DirectoryIsKnown(a.fs, ARCHIVE_DIR);
      AddRawDirectoriesKeepsArchive(a.fs, a.isDeleteNonContrastFiles);
    } else {
      assert s.fs[q] == a.fs[q];
    }
  }

  /** With pictures at the working directory `start` never deletes: every
      entry of every folder other than the working directory is still
      there afterwards. */
  lemma RootPicturesDeleteNothing(fs: Fs, dirNames: seq<Name>, isOriginalDocumentDir: bool)
    requires StartSafe(fs, dirNames, true, isOriginalDocumentDir)
    ensures var r := AfterStart(fs, dirNames, true, isOriginalDocumentDir);
      forall q, n :: q in fs && q != [] && n in fs[q] ==> q in r && n in r[q]
  {
    var s := AfterProvision(fs, dirNames, isOriginalDocumentDir).fs;
    StartWithoutDeletion(fs, dirNames, true, isOriginalDocumentDir);
    StartWithoutDeletionMoves(fs, dirNames, true, isOriginalDocumentDir);
    var r := AfterStart(fs, dirNames, true, isOriginalDocumentDir);
    forall q, n | q in fs && q != [] && n in fs[q] ensures q in r && n in r[q] {
      ProvisionKeepsEntries(fs, dirNames, isOriginalDocumentDir, q, n);
      MoveKeepsEntries(s, q, n);
    }
  }

  /** A run that is not idle leaves no picture of either kind at the
      working directory. */
  lemma StartLeavesNoPicture(fs: Fs, dirNames: seq<Name>, isRootPictureFiles: bool, isOriginalDocumentDir: bool)
    requires isRootPictureFiles || isOriginalDocumentDir
    requires StartSafe(fs, dirNames, isRootPictureFiles, isOriginalDocumentDir)
    ensures forall n: Name :: !IsPicture(AfterStart(fs, dirNames, isRootPictureFiles, isOriginalDocumentDir)[[]], n)
  {
    MovePictureFilesLeavesNoPicture(BeforeMove(fs, dirNames, isRootPictureFiles, isOriginalDocumentDir));
  }
}
