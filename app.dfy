/**
 * The `App` class: the disk it works on, the folder names it creates and
 * the three flags it keeps.  Every method is proved to change the disk and
 * the flag exactly as the step functions of `Steps` describe.
 *
 * `rootPath` is the working directory, the empty path of the model; the two
 * regular expressions are the `Pattern` values; `delay` and the console
 * output do not change the state and are not modelled.
 */
module AppModel {
  import opened AbstractFs
  import opened PictureTypes
  import opened Patterns
  import opened Classifier
  import opened Reconciler
  import opened Folds
  import opened Steps

  class App {
    /** The disk as the tool sees it. */
    var fs: Fs
    /** The folders `addDirectories` creates: the archive folder first. */
    const dirNames: seq<Name>
    /** Pictures were at the working directory when the tool started. */
    const isRootPictureFiles: bool
    /** The archive folder (or an entry of its name) existed at the start. */
    const isOriginalDocumentDir: bool
    /** An earlier run had already created the folders. */
    var isDeleteNonContrastFiles: bool

    /** `new App(dirNames)` on the disk `disk`. */
    constructor (extraDirNames: seq<Name>, disk: Fs)
      requires WellFormed(disk)
      ensures fs == disk && dirNames == [ORIGINAL_DOCUMENT] + extraDirNames
      ensures isRootPictureFiles == HasPictureFiles(disk[[]])
      ensures isOriginalDocumentDir == Exists(disk, ARCHIVE_DIR)
      ensures !isDeleteNonContrastFiles
    {
      fs := disk;
      dirNames := [ORIGINAL_DOCUMENT] + extraDirNames;
      isRootPictureFiles := HasPictureFiles(disk[[]]);
      isOriginalDocumentDir := Exists(disk, ARCHIVE_DIR);
      isDeleteNonContrastFiles := false;
    }

    /** `start`: nothing without pictures or an archive folder; otherwise
        provision the folders, reconcile the archive on a second run and
        move the pictures. */
    method Start()
      requires StartSafe(fs, dirNames, isRootPictureFiles, isOriginalDocumentDir)
      modifies this
      ensures fs == AfterStart(old(fs), dirNames, isRootPictureFiles, isOriginalDocumentDir)
      ensures !isRootPictureFiles && !isOriginalDocumentDir ==> isDeleteNonContrastFiles == old(isDeleteNonContrastFiles)
      ensures isRootPictureFiles || isOriginalDocumentDir ==>
        isDeleteNonContrastFiles == AfterProvision(old(fs), dirNames, isOriginalDocumentDir).isDeleteNonContrastFiles
    {
      if !isRootPictureFiles && !isOriginalDocumentDir {
        return;
      }
      AddDirectories();
      AddRawDirectories();
      if !isRootPictureFiles && isDeleteNonContrastFiles {
        DeleteNonContrastFiles();
      }
      MovePictureFiles();
    }

    /** `addDirectories`: `every` over the folder names; the callback
        refuses every name when the archive folder existed, and otherwise
        creates the folder and goes on. */
    method AddDirectories()
      requires AddDirectoriesSafe(fs, dirNames, isOriginalDocumentDir)
      modifies this
      ensures var r := AfterAddDirectories(old(fs), dirNames, isOriginalDocumentDir);
        fs == r.fs && isDeleteNonContrastFiles == r.isDeleteNonContrastFiles
    {
      ghost var start := fs;
      var disk := fs;
      var isSuccess := true;
      var i := 0;
      while i < |dirNames|
        modifies {}
        invariant 0 <= i <= |dirNames| && isSuccess
        invariant isOriginalDocumentDir ==> i == 0 && disk == start
        invariant !isOriginalDocumentDir ==>
          FreshNames(start[[]], dirNames[..i]) && disk == MkdirAll(start, [], dirNames[..i])
      {
        if isOriginalDocumentDir {
          isSuccess := false;
          break;
        }
        MkdirAllNext(start, [], dirNames, i);
        disk := Mkdir(disk, [], dirNames[i]);
        i := i + 1;
      }
      assert !isOriginalDocumentDir ==> dirNames[..i] == dirNames;
      fs := disk;
      SetIsDeleteNonContrastFiles(!isSuccess);
    }

    /** `addRawDirectories`: without the archive folder nothing happens;
        otherwise `every` over "raw" and "jpg" stops at the first that
        exists and creates the ones before it. */
    method AddRawDirectories()
      requires AddRawDirectoriesSafe(fs)
      modifies this
      ensures var r := AfterAddRawDirectories(old(fs), old(isDeleteNonContrastFiles));
        fs == r.fs && isDeleteNonContrastFiles == r.isDeleteNonContrastFiles
    {
      if !Exists(fs, ARCHIVE_DIR) {
        return;
      }
      DirectoryIsKnown(fs, ARCHIVE_DIR);
      ghost var start := fs;
      ghost var l := fs[ARCHIVE_DIR];
      var disk := fs;
      var names := ORIGINAL_DOCUMENT_DIR_NAMES;
      var isSuccess := true;
      var i := 0;
      while i < |names|
        modifies {}
        invariant 0 <= i <= AbsentPrefix(l, names) && isSuccess
        invariant FreshNames(l, names[..i]) && disk == MkdirAll(start, ARCHIVE_DIR, names[..i])
      {
        var path := ARCHIVE_DIR + [names[i]];
        RawDirectoryStep(start, i);
        if Exists(disk, path) {
          isSuccess := false;
          break;
        }
        disk := Mkdir(disk, ARCHIVE_DIR, names[i]);
        i := i + 1;
      }
      fs := disk;
      SetIsDeleteNonContrastFiles(!isSuccess);
    }

    /** `movePictureFiles`: for "raw" and then "jpg", the pictures of the
        pattern the folder's name picks go into that sub-folder. */
    method MovePictureFiles()
      requires MovePictureFilesSafe(fs)
      modifies this
      ensures fs == AfterMovePictureFiles(old(fs))
      ensures isDeleteNonContrastFiles == old(isDeleteNonContrastFiles)
    {
      var names := ORIGINAL_DOCUMENT_DIR_NAMES;
      ArchivePathsDiffer();
      for i := 0 to |names|
        invariant i == 0 ==> fs == old(fs)
        invariant i == 1 ==> fs == AfterMoveRawFiles(old(fs))
        invariant i == 2 ==> fs == AfterMovePictureFiles(old(fs))
        invariant isDeleteNonContrastFiles == old(isDeleteNonContrastFiles)
      {
        var dirName := names[i];
        var extension := PatternFor(dirName);
        var newPath := ARCHIVE_DIR + [dirName];
        assert newPath == if i == 0 then RAW_DIR else JPG_DIR;
        MoveFiles(newPath, extension);
      }
    }

    /** `deleteNonContrastFiles`: list both archive sub-folders; with a plan,
        delete the unpaired files of the folder with more files. */
    method DeleteNonContrastFiles()
      requires DeleteNonContrastFilesSafe(fs)
      modifies this
      ensures fs == AfterDeleteNonContrastFiles(old(fs))
      ensures isDeleteNonContrastFiles == old(isDeleteNonContrastFiles)
    {
      var rawFiles, jpgFiles := ArchiveFiles(fs, RAW), ArchiveFiles(fs, JPG);
      var originalDocumentFiles := OriginalDocumentFiles(rawFiles, jpgFiles);
      if originalDocumentFiles.None? {
        return;
      }
      var isJpgUser := |jpgFiles| < |rawFiles|;
      var path := FolderOf(if isJpgUser then RawFolder else JpgFolder);
      var (rawFilesToDelete, jpgFilesToDelete) := OriginalDocumentToDelete(rawFiles, jpgFiles);
      DeletionTargetsMajority(rawFiles, jpgFiles);
      ArchivePathsDiffer();
      if isJpgUser {
        DeleteFiles(path, rawFilesToDelete);
      } else {
        DeleteFiles(path, jpgFilesToDelete);
      }
    }

    /** `setIsDeleteNonContrastFiles`. */
    method SetIsDeleteNonContrastFiles(flag: bool)
      modifies this
      ensures isDeleteNonContrastFiles == flag && fs == old(fs)
    {
      isDeleteNonContrastFiles := flag;
    }

    /** `deleteFiles(path, files)`: `unlinkSync` of each file, in order. */
    method DeleteFiles(path: Path, files: seq<Name>)
      requires Removable(fs, path, files)
      modifies this
      ensures fs == UnlinkAll(old(fs), path, files)
      ensures isDeleteNonContrastFiles == old(isDeleteNonContrastFiles)
    {
      ghost var start := fs;
      var disk := fs;
      for i := 0 to |files|
        modifies {}
        invariant Removable(start, path, files[..i])
        invariant disk == UnlinkAll(start, path, files[..i])
      {
        UnlinkAllNext(start, path, files, i);
        disk := Unlink(disk, path, files[i]);
      }
      assert files[..|files|] == files;
      fs := disk;
    }

    /** `moveFiles(path, extension)`: the files `getFiles` lists at the
        working directory, each renamed into `path`. */
    method MoveFiles(path: Path, extension: Pattern)
      requires MoveFilesSafe(fs, path, extension)
      modifies this
      ensures fs == AfterMoveFiles(old(fs), path, extension)
      ensures isDeleteNonContrastFiles == old(isDeleteNonContrastFiles)
    {
      var files := ListFiles(fs[[]], extension);
      ListedFilesMovable(fs, path, extension);
      RenameFiles(files, path);
    }

    /** The `forEach` of `moveFiles`: `renameSync(file, path/file)` for each
        file, in order. */
    method RenameFiles(files: seq<Name>, path: Path)
      requires Movable(fs, files, path)
      modifies this
      ensures fs == MoveAll(old(fs), files, path)
      ensures isDeleteNonContrastFiles == old(isDeleteNonContrastFiles)
    {
      ghost var start := fs;
      var disk := fs;
      for i := 0 to |files|
        modifies {}
        invariant Movable(start, files[..i], path)
        invariant disk == MoveAll(start, files[..i], path)
      {
        MoveAllNext(start, files, path, i);
        disk := MoveFile(disk, files[i], path);
      }
      assert files[..|files|] == files;
      fs := disk;
    }
  }
}
