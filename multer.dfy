/**
 * The upload middleware's configuration (config/multer.js): an allow-list of
 * MIME types checked by `fileFilter`, and a per-file size limit.
 */
module Multer {
  import opened Wrappers
  import opened Text

  const AllowedTypes: seq<string> := ["audio/mpeg", "audio/wav", "audio/flac", "audio/ogg"]

  /** `limits.fileSize`: 50 MiB. */
  const MaxFileSize: nat := 50 * 1024 * 1024

  const InvalidFileType: string := "Invalid file type."

  /** The two arguments `fileFilter` passes to its callback `cb(error, accept)`. */
  datatype FilterVerdict = FilterVerdict(error: Option<string>, accept: bool)

  /** `fileFilter`: exact, case-sensitive membership of the declared MIME
      type in the allow-list; a rejection carries the error message. */
  function FileFilter(mimeType: string): (v: FilterVerdict)
    ensures v.accept <==>
      mimeType == "audio/mpeg" || mimeType == "audio/wav" || mimeType == "audio/flac" || mimeType == "audio/ogg"
    ensures v.accept <==> v.error.None?
    ensures !v.accept ==> v.error == Some("Invalid file type.")
  {
    if mimeType in AllowedTypes then FilterVerdict(None, true)
    else FilterVerdict(Some(InvalidFileType), false)
  }

  /** A file is kept while its size does not exceed the limit; one byte more
      and the middleware raises its file-size error. */
  function WithinSizeLimit(size: nat): (ok: bool)
    ensures ok <==> size <= 52428800
  {
    size <= MaxFileSize
  }

  /** Every accepted type begins with `audio/`. */
  lemma {:induction false} AcceptedTypesAreAudio(mimeType: string)
    requires FileFilter(mimeType).accept
    ensures StartsWith(mimeType, "audio/")
  {
    assert mimeType in AllowedTypes;
  }

  /** Matching is exact: another case, or parameters after the type, are
      rejected. */
  lemma FilterIsExact()
    ensures !FileFilter("audio/MPEG").accept
    ensures !FileFilter("Audio/mpeg").accept
    ensures !FileFilter("audio/mpeg; x=1").accept
    ensures !FileFilter("audio/mp3").accept
    ensures FileFilter("audio/ogg").accept
  {
  }
}
