/** The folder names the tool uses, from `src/type.ts`. */
module PictureTypes {
  import opened AbstractFs

  /** The archive folder: "원본" ("original"). */
  const ORIGINAL_DOCUMENT: Name := "원본"
  /** Its sub-folder for raw files. */
  const RAW: Name := "raw"
  /** Its sub-folder for JPEG files. */
  const JPG: Name := "jpg"

  /** `originalDocumentDirNames`: the two sub-folders, raw first. */
  const ORIGINAL_DOCUMENT_DIR_NAMES: seq<Name> := [RAW, JPG]

  const ARCHIVE_DIR: Path := [ORIGINAL_DOCUMENT]
  const RAW_DIR: Path := [ORIGINAL_DOCUMENT, RAW]
  const JPG_DIR: Path := [ORIGINAL_DOCUMENT, JPG]
}
