# Photo sorter: a Dafny model of `App`

The tool sorts the photos of the working directory into a fixed folder tree.
On a later run it prunes the surplus files of one format. All of its logic is
the class `App` of `src/app.ts`, and this project models that class over an
abstract filesystem.

**First run.** `start` creates the archive folder "원본" and the extra
folders it was given, then the sub-folders "원본/raw" and "원본/jpg". It moves
every raw picture of the working directory into the raw folder and every
other JPEG picture into the jpg folder.

**Second run.** The working directory holds no pictures, and the folders
already exist. `start` lists both archive sub-folders, compares them by
position, and deletes the unpaired files of the folder with more files. It
then moves whatever pictures are left, which is nothing.

## Modules

- `AbstractFs` (filesystem.dfy): the disk.
  - A known directory is a path from the working directory, and the empty
    path is the working directory.
  - Each known directory has a listing that maps entry names to file or
    directory.
  - `WellFormed` says the listings form a tree.
  - `mkdirSync`, `renameSync` and `unlinkSync` are the functions `Mkdir`,
    `MoveFile` and `Unlink`. The conditions under which Node throws are
    their preconditions.
- `PictureTypes` (types.dfy): the folder names "원본", "raw" and "jpg".
- `NodePath` (extname.dfy): Node's `path.extname` for one entry name.
- `Patterns` (patterns.dfy): the two extension patterns.
  - Each is an alternation of lower-case tokens matched with the `i` flag,
    modelled as "the ASCII-lower-cased extension contains a token".
  - `PatternFor` picks the pattern for an archive sub-folder by testing its
    name against `jpgRegExp`.
- `StringOrder` (order.dfy): the order `Array.prototype.sort` uses with no
  comparator, which compares UTF-16 code units.
  - It is proved to be a total order.
  - `Utf16Order` proves it equal to the lexicographic order of the strings'
    UTF-16 encodings, with `Utf16` as the explicit encoding.
  - `SortedElements` lists a finite set in that order.
- `Classifier` (classifier.dfy): `getFiles` and `hasPictureFiles` on a
  listing.
- `Stem` and `StemFacts` (stem.dfy): `hasSameFile`.
  - The stem is the capture of `/(.*)(?:\.\w+)/` under JavaScript's
    backtracking semantics: the leftmost start, then the longest capture.
    `.` does not match line terminators.
  - The stem is then used as a regular expression and applied to the other
    name, with `.` as a wildcard.
- `Reconciler` and `ReconcilerExamples` (reconciler.dfy):
  `getOriginalDocumentFiles`, `getOriginalDocumentToDelete` and the
  deletion plan of `deleteNonContrastFiles`, plus worked examples.
- `Folds` (folds.dfy): the `every` and `forEach` loops over a list of
  names, as functions of the disk.
- `Steps` (workflow.dfy): each step's effect on the disk and on
  `isDeleteNonContrastFiles`, and the composition that is `start`.
- `AppModel` (app.dfy): the class `App`.
  - Its fields are the disk, the folder names, the two flags the constructor
    computes (`const`, since the source never assigns them again) and
    `isDeleteNonContrastFiles`.
  - Each method is proved to change the disk and the flag exactly as the
    matching `Steps` function says.
  - The loops of `addDirectories`, `addRawDirectories`, `deleteFiles` and
    `moveFiles` are `while`/`for` loops with their invariants.
- `RunProperties` (run.dfy): properties of whole runs, proved on the step
  functions.

### How the model reads the code

These behaviours come straight from the code:

- **Pairing is by position.** File `j` of one list is compared only with
  file `j` of the other list. Past the end of that list it is compared with
  `undefined`, which `RegExp.test` reads as the string "undefined".
  - Pairing is not stem equality over all pairs.
  - `ReconcilerExamples.PairingIsByPosition` shows the difference: with
    raw = {a, b, c} and jpg = {b, c}, all three raw files are deleted.
- **The stem is a pattern.** The test is containment of the stem with `.` as
  a wildcard, not equality of stems.
- **`addRawDirectories` stops early.** Its `every` stops at the first
  sub-folder that exists. When "raw" exists, "jpg" is neither checked nor
  created.
  - On such a disk a second run lists the missing jpg folder, which throws.
    `RunProperties.RawWithoutJpgFails` and `RawWithoutJpgFailsToMove` show
    that `start` is then unsafe.
- **The flag is overwritten.** `addRawDirectories` overwrites the flag
  `addDirectories` set. It ends set exactly when the archive folder existed
  and already listed "raw" or "jpg" (`RunProperties.ProvisionFlag`).
- **There is no confirmation prompt.** Deletion happens without asking.
- **Extensions match case-insensitively.** "a.CR2" matches the raw pattern.
  The stem test of `hasSameFile` has no flags, so it is case-sensitive:
  "IMG_1.CR2" does not pair with "img_1.jpg".

## Model

| member | source | states |
|---|---|---|
| AbstractFs.Mkdir | src/app.ts:58 | `mkdirSync` of a new name in a known folder keeps the tree well formed. It adds exactly one known folder, which is empty. It lists the new entry as a folder and changes no other listing. |
| AbstractFs.MoveFile | src/app.ts:173 | `renameSync` of a root file into a folder removes the entry from the working directory. It lists the entry as a file in the target, replacing a file of that name. It keeps the set of folders and every other listing. |
| AbstractFs.Unlink | src/app.ts:163 | `unlinkSync` of a regular file removes exactly that entry. The folders and every other listing stay as they were. |
| AbstractFs.DirectoryIsKnown | src/app.ts:144 | On a well-formed disk, a path is a known folder exactly when `existsSync` finds it and its parent lists it as a folder. |
| AbstractFs.ExistsKinds | src/app.ts:144 | On a well-formed disk, `existsSync` finds a path exactly when it is a known folder, or a file entry of a known folder. |
| NodePath.Extname | src/app.ts:111 | The extension is empty exactly when the name has no "." after its first character. Otherwise it is the suffix from the last ".", and it contains no other ".". |
| Patterns.MatchesIgnoresCase | src/app.ts:111 | Two extensions that differ only in the case of ASCII letters match the same patterns (the `i` flag). |
| Patterns.MatchNeedsThreeCharacters | src/app.ts:19-20 | Every token of either pattern has three characters, so a matching extension has at least three. |
| Steps.FolderPatterns | src/app.ts:84-89 | The folder "raw" gets the raw pattern and the folder "jpg" gets the jpg pattern. |
| StringOrder.CodeUnitRank | src/app.ts:112 | Characters below U+D800 keep their code. Exactly the characters from U+D800 on rank at 0xD800 or above. `StringOrder.Utf16Order` ties this rank to the UTF-16 encoding. |
| StringOrder.Reflexive | src/app.ts:112 | The sort order is reflexive. |
| StringOrder.AntiSymmetric | src/app.ts:112 | The sort order is antisymmetric. |
| StringOrder.Transitive | src/app.ts:112 | The sort order is transitive. |
| StringOrder.Total | src/app.ts:112 | Any two strings are comparable in the sort order. |
| StringOrder.Utf16Units | src/app.ts:112 | A character is one or two UTF-16 code units, each below 0x10000. |
| StringOrder.Utf16Order | src/app.ts:112 | Two strings compare exactly as their UTF-16 encodings compare, code unit by code unit with a proper prefix first. A character below U+10000 is one unit, and one above is a surrogate pair. So a character above U+FFFF sorts between U+D7FF and U+E000. |
| StringOrder.SortedElements | src/app.ts:112 | The sorted listing of a set holds exactly its elements, each once, in strictly ascending order. |
| StringOrder.StrictlySortedUnique | src/app.ts:112 | Two strictly sorted sequences with the same elements are equal, so the sorted listing is unique. |
| Classifier.ListFiles | src/app.ts:109-113 | `getFiles` lists exactly the regular files whose extension matches, never a directory, each once, sorted ascending. |
| Classifier.MatchingNameHasExtension | src/app.ts:111 | A matching file has a "." after its first character, so a hidden name such as ".jpg" never matches. Its extension has at least three characters and is shorter than the name. |
| Classifier.ListFilesDeterminedByMatches | src/app.ts:109-113 | Two listings with the same matching files give the same `getFiles` result. |
| Classifier.HasPictureFiles | src/app.ts:146 | `hasPictureFiles` is true exactly when some regular file matches either pattern. |
| Stem.StemOf | src/app.ts:153-154 | The capture is absent exactly when the regular expression matches nowhere. Otherwise it is the capture of the leftmost match, with the longest possible capture. |
| Stem.MatchFrom | src/app.ts:153 | Searching from a line start finds the leftmost match start and, for it, the last `.\w` it can reach without crossing a line terminator. It finds none exactly when no match exists. |
| Stem.OccurrenceMatches | src/app.ts:156 | Wherever the stem occurs literally in the other name, the pattern matches there: its `.` meets a ".", which is no line terminator. |
| Stem.RegexTest | src/app.ts:156 | `test` with a stem free of metacharacters succeeds whenever the stem occurs in the subject as written. It never succeeds on a subject shorter than the stem. |
| Stem.HasSameFile | src/app.ts:152-157 | `hasSameFile` holds only for a non-empty stem no longer than the other name. It holds whenever that stem occurs in the other name as written. |
| StemFacts.StemWithoutLineBreaks | src/app.ts:153-154 | In a name without line breaks, the stem is everything before the last "." that is followed by a word character. |
| StemFacts.HasSameFileItself | src/app.ts:152-157 | A name with a non-empty stem has the same file as itself. |
| StemFacts.HasSameFileIsContainment | src/app.ts:152-157 | For a stem without ".", `hasSameFile` holds exactly when the stem is non-empty and occurs in the other name. |
| StemFacts.NoSuffixNeverPaired | src/app.ts:152-157 | A name with no "." followed by a word character has no stem, so `hasSameFile` is false whatever it is compared with. |
| StemFacts.OnlyDotStem | src/app.ts:153-154 | A name with a single "." that is followed by a word character, and with no line terminator anywhere, has as its stem everything before that ".". |
| ReconcilerExamples.OneLetterStem | src/app.ts:152-157 | A name `x.ext` pairs with exactly the names that contain `x`. This holds when `x` is not ".", a metacharacter or a line terminator, and `ext` starts with a word character and holds no "." and no line terminator. |
| Reconciler.Unpaired | src/app.ts:134-138 | The filter keeps a sub-list of the input: no longer than it, every element drawn from it, and strictly sorted when the input is. |
| Reconciler.KeptIndices | src/app.ts:135-137 | The kept positions, stated independently: strictly ascending, all in range, and exactly the positions where the file is not paired with the other list's file at that position (or with "undefined" past its end). |
| Reconciler.UnpairedAtKeptIndices | src/app.ts:133-142 | The filter's result is the files at the kept positions, in their original order. |
| Reconciler.UnpairedIsKept | src/app.ts:133-142 | A name is on the result exactly when it sits at a position where it is unpaired. |
| Reconciler.ToDeleteByPosition | src/app.ts:133-142 | Each list of deletions holds exactly its side's names that `hasSameFile` does not pair with the other side's name at the same position. Past the other side's end, the comparison is with "undefined". |
| Steps.ArchiveListingsDecidePlan | src/app.ts:115-129 | `getOriginalDocumentFiles` lists the raw folder with the raw pattern and the jpg folder with the jpg pattern. When the counts are equal or either is zero, `deleteNonContrastFiles` leaves the disk as it was. Otherwise the plan deletes the unpaired list of the larger side from its folder, computed from exactly those two listings. |
| Reconciler.DeletionPlan | src/app.ts:99-106 | There is a plan exactly when `getOriginalDocumentFiles` is not `null`. |
| Reconciler.DeletionTargetsMajority | src/app.ts:100-106 | A plan exists only for non-empty lists of different lengths. It targets the raw folder exactly when there are fewer jpg files than raw files. It deletes exactly that side's unpaired list, and only files on that side. |
| Reconciler.EqualCountsDeleteNothing | src/app.ts:124-126 | Equal counts never produce a plan, whatever the names. |
| Reconciler.UnpairedWithItself | src/app.ts:133-142 | A list compared with itself has nothing unpaired when every stem is non-empty. |
| ReconcilerExamples.TwoAgainstOne | src/app.ts:136 | Two raw files against one jpg file: the second raw file is compared with "undefined" and deleted unless it pairs with that string. |
| ReconcilerExamples.NoneKeptOfThree | src/app.ts:133-142 | When no raw file pairs at its position, the filter keeps all three. |
| ReconcilerExamples.ThreeAgainstTwo | src/app.ts:99-106 | With three raw files and two jpg files, the plan deletes the raw side's unpaired list from the raw folder. |
| ReconcilerExamples.SecondRunDeletesUnpairedRaw | src/app.ts:93-107 | With raw = {a.CR2, b.CR2} and jpg = {a.jpg}, the plan deletes `b.CR2` from the raw folder. |
| ReconcilerExamples.PairingIsByPosition | src/app.ts:136 | With raw = {a, b, c} and jpg = {b, c}, all three raw files are deleted, although `b` and `c` have jpg partners. |
| Folds.MkdirAll | src/app.ts:54-62 | Creating new distinct names one by one keeps the disk well formed. Afterwards the folder lists exactly its old entries plus the names. |
| Folds.MkdirAllEffect | src/app.ts:54-62 | After creating each name, each new entry is an empty folder. Old entries keep their kind, the only new folders are the names, and no other listing changes. |
| Folds.MoveAll | src/app.ts:169-175 | Renaming distinct root files one by one into a folder keeps the set of folders. The working directory loses exactly those files and the target gains them as files. Every other entry of both keeps its kind. |
| Folds.MoveAllFrame | src/app.ts:169-175 | The renames change no listing other than the working directory's and the target's. |
| Folds.UnlinkAll | src/app.ts:160-165 | Deleting distinct files of a folder one by one removes exactly those entries, keeps every other entry unchanged and keeps every known folder. |
| Folds.UnlinkAllFrame | src/app.ts:160-165 | The deletions change no listing other than that folder's. |
| Steps.AddDirectoriesEffect | src/app.ts:53-65 | With the archive folder already present, nothing is created and the flag is set. Otherwise every name is created at the working directory and the flag is cleared. No other listing changes either way. |
| Steps.AfterAddDirectories | src/app.ts:53-65 | `addDirectories` keeps the disk a well-formed tree. What it creates and the flag it sets are stated by `Steps.AddDirectoriesEffect`. |
| Steps.AddDirectoriesCreates | src/app.ts:54-62 | Without the archive folder, every name becomes an empty folder of the working directory. |
| Steps.AbsentPrefix | src/app.ts:70-78 | `every` stops at its first existing sub-folder: all names before that point are absent and the name at it is present. |
| Steps.RawDirectoryStep | src/app.ts:70-78 | In each round, the next sub-folder exists exactly when it was there at the start (and the loop then stops where `AbsentPrefix` says). Otherwise creating it extends the sub-folders created so far by one. |
| Steps.RawDirectoriesToCreate | src/app.ts:70-78 | Nothing is created when "raw" exists; only "raw" when only "jpg" exists; otherwise both, and none of them was taken. |
| Steps.AddRawDirectoriesFrame | src/app.ts:67-81 | Without the archive folder nothing changes. Otherwise only the archive folder's listing changes, and no known folder is lost. |
| Steps.AddRawDirectoriesFlag | src/app.ts:68-80 | The flag ends set exactly when "raw" or "jpg" already existed. An existing "raw" leaves the disk as it was. |
| Steps.AddRawDirectoriesCreates | src/app.ts:70-78 | A missing "raw" is created empty, and so is "jpg" when both were missing. |
| Steps.AddRawDirectoriesKeepsArchive | src/app.ts:67-81 | The archive folder keeps every entry it had, and gains at most "raw" and "jpg". |
| Steps.AfterAddRawDirectories | src/app.ts:67-81 | `addRawDirectories` keeps the disk a well-formed tree. What it creates and the flag are stated by the four `Steps.AddRawDirectories…` lemmas. |
| Steps.ListedFilesMovable | src/app.ts:169 | The files `getFiles` lists can be renamed one after the other. |
| Steps.MoveFilesEffect | src/app.ts:168-176 | The working directory loses exactly the matching files. The target gains them and keeps every other entry. When there is no target, nothing is moved. No other folder changes. |
| Steps.AfterMoveFiles | src/app.ts:168-176 | `moveFiles` keeps the disk a well-formed tree with the same known folders. What moves is stated by `Steps.MoveFilesEffect`. |
| Steps.SequentialMoves | src/app.ts:84-90 | After two `moveFiles` calls into different folders: the first folder gains what the first pattern matched, and the second gains what only the second pattern matched. No matching file is left at the working directory. |
| Steps.ArchivePathsDiffer | src/app.ts:87 | The raw and jpg sub-folders are different paths inside the archive folder. |
| Steps.MovePictureFilesClearsRoot | src/app.ts:83-91 | Afterwards the working directory holds exactly its entries that were not pictures, unchanged. |
| Steps.MovePictureFilesLeavesNoPicture | src/app.ts:83-91 | Afterwards no picture of either kind is left at the working directory. |
| Steps.MovePictureFilesFillsArchive | src/app.ts:83-91 | The raw folder gains the raw files, and the jpg folder gains the jpg files that are not raw files. Both keep what they had, and no other folder changes. |
| Steps.AfterMovePictureFiles | src/app.ts:83-91 | `movePictureFiles` keeps the disk a well-formed tree. Its effect is stated by the three `Steps.MovePictureFiles…` lemmas. |
| Steps.ArchiveFiles | src/app.ts:116-122 | An archive sub-folder's listing, taken with the pattern its name picks, is strictly sorted. |
| Steps.DeleteNonContrastFilesEffect | src/app.ts:93-107 | Without a plan the disk is as it was. With one, the folder it names loses exactly the listed files, and every other listing is unchanged. |
| Steps.DeletesOnlyListedPictures | src/app.ts:159-166 | Every deleted file was on the plan's list and was a picture of the folder with more files. |
| Steps.DeleteNonContrastFilesFrame | src/app.ts:93-107 | No listing other than the two archive sub-folders' changes. |
| Steps.AfterDeleteNonContrastFiles | src/app.ts:93-107 | `deleteNonContrastFiles` keeps the disk a well-formed tree with the same known folders. What is deleted is stated by `Steps.DeleteNonContrastFilesEffect` and `Steps.ArchiveListingsDecidePlan`. |
| Steps.StartWithoutDeletion | src/app.ts:39-47 | On a run with pictures at the working directory or an archive folder, when pruning does not run, `start` is safe exactly when `movePictureFiles` is safe on the provisioned disk. |
| Steps.StartWithoutDeletionMoves | src/app.ts:39-47 | On a run with pictures at the working directory or an archive folder, when pruning does not run, `start` leaves the provisioned disk after `movePictureFiles`. |
| Steps.AfterStart | src/app.ts:26-51 | A run that is not idle leaves a well-formed tree. An idle run, with neither pictures nor an archive folder, changes nothing (`RunProperties.IdleRunChangesNothing`). |
| AppModel.App.constructor | src/app.ts:15-24 | The folder names are the archive folder followed by the extra names. `isRootPictureFiles` is `hasPictureFiles` of the working directory, `isOriginalDocumentDir` is `existsSync` of the archive folder, and the run flag is clear. |
| AppModel.App.Start | src/app.ts:26-51 | The disk becomes `AfterStart` of the old disk. An idle run leaves the disk and the flag untouched. Otherwise the folders are provisioned, the archive is pruned on a second run, and every picture is moved into the archive (`RunProperties.FirstRun`, `RunProperties.SecondRun`, `RunProperties.StartLeavesNoPicture`). The flag is the one provisioning leaves. |
| AppModel.App.AddDirectories | src/app.ts:53-65 | The disk and the flag become `AfterAddDirectories`. With an archive folder nothing is created and the flag is set. Otherwise every folder name is created at the working directory and the flag is cleared. |
| AppModel.App.AddRawDirectories | src/app.ts:67-81 | The disk and the flag become `AfterAddRawDirectories`. Without the archive folder nothing changes. Otherwise the missing "raw" and "jpg" are created, stopping at the first existing one, and the flag becomes "one of them existed". |
| AppModel.App.MovePictureFiles | src/app.ts:83-91 | The disk becomes `AfterMovePictureFiles`: the raw files are moved into "raw" and then the other jpg files into "jpg", leaving no picture at the working directory. The flag is untouched. |
| AppModel.App.DeleteNonContrastFiles | src/app.ts:93-107 | The disk becomes `AfterDeleteNonContrastFiles`. Nothing is deleted with equal counts or an empty side. Otherwise the larger side's unpaired files are deleted from its folder. The flag is untouched. |
| AppModel.App.SetIsDeleteNonContrastFiles | src/app.ts:148-150 | The flag becomes the argument, and the disk is untouched. |
| AppModel.App.DeleteFiles | src/app.ts:159-166 | The disk becomes `UnlinkAll` of the files, in order: exactly those entries leave the folder and nothing else changes. The flag is untouched. |
| AppModel.App.MoveFiles | src/app.ts:168-176 | The disk becomes `AfterMoveFiles`. The files `getFiles` lists at the working directory are renamed into the target, and nothing else changes. The flag is untouched. |
| AppModel.App.RenameFiles | src/app.ts:169-175 | The disk becomes `MoveAll` of the files, in order: they leave the working directory and appear as files of the target. The flag is untouched. |
| RunProperties.IdleRunChangesNothing | src/app.ts:34-37 | Without pictures and without an archive folder, `start` is safe and changes nothing. |
| RunProperties.ArchiveAbsent | src/app.ts:22 | When the working directory has no entry "원본", `existsSync` is false for it and none of the archive folders is known. |
| RunProperties.ArchivePresent | src/app.ts:68 | A known raw sub-folder means the archive folder exists and lists "raw". |
| RunProperties.ProvisionFlag | src/app.ts:53-81 | After both provisioning steps the flag is set exactly when the archive folder existed at construction and already listed "raw" or "jpg". |
| RunProperties.EmptyArchiveProvision | src/app.ts:70-80 | In an empty archive folder both sub-folders are created empty, the flag ends clear, and no other listing changes. |
| RunProperties.FirstRunAddDirectories | src/app.ts:53-65 | Without an archive folder, `addDirectories` adds exactly the new folders, the archive folder among them and empty. Every old listing stays as it was. |
| RunProperties.FirstRunProvision | src/app.ts:39-40 | On a first run, provisioning adds the new folders and both empty sub-folders and clears the flag. Every old folder keeps its listing. |
| RunProperties.MoveIntoEmptyArchive | src/app.ts:83-91 | Into empty sub-folders, the raw folder ends with exactly the raw files and the jpg folder with exactly the other jpg files. The working directory keeps exactly its non-pictures. |
| RunProperties.FirstRunMoves | src/app.ts:39-47 | Provisioning and then moving on a first run: every raw picture is in the raw folder, every other jpg picture is in the jpg folder, and old folders are unchanged. |
| RunProperties.FirstRun | src/app.ts:26-51 | A first run is safe. Afterwards the working directory holds its non-pictures and the new folders. The raw folder holds exactly the raw pictures, the jpg folder exactly the other jpg pictures, and every old folder keeps its listing. |
| RunProperties.NoPictureNoMove | src/app.ts:83-91 | With no pictures at the working directory, `movePictureFiles` is safe and changes nothing. |
| RunProperties.SecondRun | src/app.ts:42-47 | With both sub-folders in place, no pictures at the working directory, and, when the counts give a plan, every listed archive picture's stem free of the metacharacters `Stem.SafeStem` excludes, `start` is safe and amounts to `deleteNonContrastFiles`. |
| RunProperties.RawWithoutJpgFails | src/app.ts:70-78 | When the archive has "raw" but not "jpg", "jpg" is never created. A run without pictures then lists the missing folder, so it is not safe. |
| RunProperties.RawWithoutJpgFailsToMove | src/app.ts:83-91 | On the same archive, a jpg picture that is not a raw file makes `renameSync` into the missing jpg folder throw. |
| RunProperties.MoveKeepsEntries | src/app.ts:83-91 | `movePictureFiles` removes no entry outside the working directory. |
| RunProperties.ProvisionFrame | src/app.ts:39-40 | Provisioning changes only the working directory's and the archive folder's listings, and loses no known folder. |
| RunProperties.BeforeMoveFrame | src/app.ts:39-45 | Provisioning and the second-run deletions change no listing outside the working directory and the archive. |
| RunProperties.ProvisionKeepsEntries | src/app.ts:39-40 | Provisioning removes no entry outside the working directory. |
| RunProperties.StartKeepsOtherFolders | src/app.ts:26-51 | Whatever the flags, `start` changes no folder outside the working directory and the archive, and loses no known folder. |
| RunProperties.RootPicturesDeleteNothing | src/app.ts:42-47 | With pictures at the working directory `start` never deletes. Every entry of every other folder is still there afterwards. |
| RunProperties.StartLeavesNoPicture | src/app.ts:26-51 | A run that is not idle leaves no picture of either kind at the working directory. |

## Left out

- Console output and colour codes (`console.log`, `console.info`, the
  helpers of `src/util.ts`, the ANSI constants of `src/type.ts`) are
  presentation only. Of `src/type.ts` only the folder names are kept.
- `delay`, `setTimeout` and the `async`/`Promise` plumbing are timing only.
  Every method is a sequential call.
- `process.cwd()` is the empty path, and `join` is appending a name to a
  path. No string paths or OS separators are modelled.
- `statSync(...).isFile()`: an entry is a regular file or a directory.
  Symbolic links and other entry kinds are not modelled.
- Node's exceptions are preconditions, not modelled errors. Each step
  requires the conditions under which its calls do not throw:
  - `mkdirSync` on a taken name or below a file;
  - `readdirSync` of a missing folder;
  - `renameSync` into a missing folder or onto a directory;
  - `unlinkSync` of something that is not a file;
  - `new RegExp` on a stem it rejects.

  `App.Start` requires the composition of these, with the last one replaced
  by the stronger `Stem.SafeStem`.
- The extra folder names are of type `Name` (non-empty, no "/", not "." or
  ".."). Names that `join` would turn into nested paths are not modelled.
- Stem.SafeStem: a stem with any of the characters `\^$*+?()[]{}|` is
  excluded by precondition, because no general regular-expression engine is
  modelled. This is stronger than what Node demands. Some such stems never
  throw: "IMG (1).CR2" gives a group, and in "a]b.CR2" the `]` is a literal.
  Runs over such names are not covered.
- Stem.RegexTest: a "." in the stem matches one character. JavaScript
  without the `u` flag matches one UTF-16 code unit, so the two differ on
  characters outside the Basic Multilingual Plane. Names are sequences of
  Unicode scalar values, so lone surrogates are not modelled either.
- AppModel.App.AddDirectories, AddRawDirectories, DeleteFiles, RenameFiles:
  each loop updates a local copy of the disk and assigns the field once at
  the end. Nothing can observe the states in between.
- The `g` flag of `RegExp(extension, 'gi')` has no effect, because a fresh
  regular expression is built for every test.
- `hasDirectory(ORIGINAL_DOCUMENT)` in `addRawDirectories` uses a path
  relative to the process's directory, which is the same folder as
  `join(rootPath, ORIGINAL_DOCUMENT)`.
