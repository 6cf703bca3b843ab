# mmhindi-backend file handling, modelled in Dafny

The backend of mmhindi accepts audio uploads. It stores each file in an S3
bucket, records it in a MongoDB collection, and serves links to view,
download and delete it. This project models the parts of that backend that
decide names, keys, links and storage effects:

- the upload middleware's configuration (`config/multer.js`): the MIME
  allow-list of `fileFilter` and the 50 MiB size limit (module `Multer`);
- the date token `getFormattedDate` (`utils/formatDate.js`), with the clock
  and `Math.random` as parameters (module `FormatDate`);
- the name sanitiser of `uploadFiles`. It derives three strings from a
  file's original name: the display name, the storage key and the base name
  (module `Names`). Each regular expression becomes a function over strings:
  - `/\(MyMp3Song[s]?\)/gi` becomes `StripTag`;
  - `/[\s-,]+/g` becomes `Collapse`;
  - `/\.[a-zA-Z0-9]+$/` becomes `StripExtension`;
  - `trim` becomes `Trim`;
- the cover-image key, built from the base name, the audio tags, the date
  token, the image size and the image's extension (module `CoverKeys`);
- `encodeURIComponent` and `decodeURIComponent` as defined in section 19.2.6
  of ECMA-262, with UTF-8 as in section 3 of RFC 3629 and percent-escapes as
  in section 2.1 of RFC 3986 (module `UriComponent`);
- the view, download and cover links, and how the delete handler reads a
  cover key back out of its link with `split("/").pop()` (module `Urls`);
- the upload and delete handlers (module `FileController`):
  - They are specified as functions over a `Store` value. A store holds the
    bucket's objects, the records, the next record id and a log of storage
    calls in the order the handler awaits them.
  - They are implemented imperatively by the class `Backend`. Its methods
    perform the same steps as the handlers, and each is proved to produce
    exactly what the specifying function gives.

Supporting modules: `Wrappers` (`Option`) and `Text`. `Text` holds character
classes, decimal rendering, `padStart`, and `split`/`join` on one separator
character.

Some results are proved about the handlers as they are written:

- One pass of the tag removal is not idempotent.
- The storage key can contain `--` when a tag stood between two spaces.
- Deleting a file leaves its cover object behind exactly when the cover key
  has a character that `encodeURIComponent` escapes, and that key differs
  from the file's storage key. The handler deletes the still-encoded last
  segment of the cover link instead of the key.

## Model

| member | source | states |
|---|---|---|
| Multer.FileFilter | config/multer.js:8-15 | accepts exactly `audio/mpeg`, `audio/wav`, `audio/flac` and `audio/ogg`; it accepts iff it passes no error, and a rejection carries `"Invalid file type."` |
| Multer.WithinSizeLimit | config/multer.js:7 | a file is within the limit iff it has at most 52428800 bytes (50 MiB) |
| Multer.AcceptedTypesAreAudio | config/multer.js:9-10 | every accepted MIME type starts with `audio/` |
| Multer.FilterIsExact | config/multer.js:10 | matching is exact and case-sensitive: another case or appended parameters are rejected |
| FormatDate.RandomNumber | utils/formatDate.js:7 | `floor(100000 + u * 900000)` lies in 100000..999999 and prints as six digits for every draw `u` in [0, 1) |
| FormatDate.TwoDigits | utils/formatDate.js:3-4 | `String(n).padStart(2, "0")` is two decimal digits that read back as `n` |
| FormatDate.FormattedDate | utils/formatDate.js:1-10 | the token is the printed year followed by ten digits; reading those back gives month (1-based), day and random number |
| FormatDate.FourDigitYearToken | utils/formatDate.js:9 | for a four-digit year the token is 14 digits: `YYYY`, `MM`, `DD`, then the six-digit number |
| Text.PadStart | utils/formatDate.js:3-4 | the result has the requested width (or the input's length), ends with the input and is filled in front |
| Text.IntToString | utils/formatDate.js:5 | a non-negative integer prints as digits that read back as it; a negative one as `-` and the digits of its magnitude |
| Text.DigitsValueOfNatToString | utils/formatDate.js:7 | reading back the decimal rendering of `n` gives `n` |
| Text.Split | controllers/fileController.js:52 | `split` gives at least one piece and no piece contains the separator |
| Text.JoinSplit | controllers/fileController.js:52 | joining the pieces of a split with the separator gives the string back |
| Text.SplitJoin | controllers/fileController.js:52 | splitting pieces that were joined gives the pieces back when none holds the separator |
| Text.SplitWithoutSeparator | controllers/fileController.js:52 | a string without the separator splits into itself alone |
| Text.SplitAtSeparator | controllers/fileController.js:52 | splitting at a separator occurrence splits the two sides independently |
| Text.LastPiece | controllers/fileController.js:180 | `split(sep).pop()` is the longest suffix without the separator |
| Text.LastPieceAfter | controllers/fileController.js:180 | the last piece after a separator is whatever follows it, when that holds no separator |
| Text.IsWhiteSpace | controllers/fileController.js:25 | the characters `\s` matches and `trim` removes: the WhiteSpace and LineTerminator code points of sections 12.2 and 12.3 of ECMA-262 (a predicate; no contract) |
| Names.TagLength | controllers/fileController.js:22 | a match at the head is 0, 11 or 12 characters long, fits in the string, and a nonzero match is an ASCII-case spelling of `(MyMp3Song)` or `(MyMp3Songs)`; the converse is TagLengthOfTag |
| Names.StripTag | controllers/fileController.js:22 | the global replace is never longer than its input and uses only its characters |
| Names.StripTagDeletesOnly | controllers/fileController.js:22 | the global replace only deletes characters: its result is a subsequence of the input, never adding or reordering characters |
| Names.StripTagWithoutTag | controllers/fileController.js:22 | a string where no match starts is left unchanged |
| Names.StripTagKeepsUnmatchedPrefix | controllers/fileController.js:22 | a prefix where no match starts passes through unchanged |
| Names.StripTagAppend | controllers/fileController.js:22 | a tail without parentheses takes part in no match |
| Names.TagLengthOfTag | controllers/fileController.js:22 | every case spelling of `(MyMp3Song)` and `(MyMp3Songs)` is matched in full at the head |
| Names.TagSpellingIsDeleted | controllers/fileController.js:22 | a tag spelling alone is removed entirely |
| Names.DisplayName | controllers/fileController.js:22 | the display name is no longer than the original, uses only its characters, and equals it when it holds no tag |
| Names.OnePassIsNotIdempotent | controllers/fileController.js:22 | a tag spliced inside another tag leaves a tag behind after the one pass, which a second pass would delete |
| Names.DropSeparators | controllers/fileController.js:25 | drops exactly the leading run of whitespace, hyphens and commas |
| Names.IsSeparator | controllers/fileController.js:25 | the class `[\s-,]`, read as `\s`, `-` or `,` (a predicate; no contract) |
| Names.Collapse | controllers/fileController.js:25 | the replacement is empty iff its input is |
| Names.CollapseHead | controllers/fileController.js:25 | the result starts with `-` iff the input starts with a separator |
| Names.CollapseRun | controllers/fileController.js:25 | a run of separators alone becomes a single `-` |
| Names.CollapseIsCollapsed | controllers/fileController.js:25 | the result has no whitespace, no comma and no two adjacent hyphens |
| Names.CollapseFixesCollapsed | controllers/fileController.js:25 | a string of that shape is left unchanged |
| Names.CollapseIdempotent | controllers/fileController.js:25 | collapsing twice equals collapsing once |
| Names.CollapseConcat | controllers/fileController.js:25 | collapsing distributes over a concatenation that does not cut a run of separators |
| Names.CollapseChars | controllers/fileController.js:25 | every character of the result is from the input or is the replacement `-` |
| Names.TrimStart | controllers/fileController.js:27 | removes exactly the leading whitespace |
| Names.TrimEnd | controllers/fileController.js:27 | removes exactly the trailing whitespace |
| Names.Trim | controllers/fileController.js:27 | the result neither starts nor ends with whitespace, and a string without whitespace is unchanged |
| Names.TrimSlice | controllers/fileController.js:27 | the result is a slice of the input and every character outside that slice is whitespace, so only leading and trailing whitespace is removed |
| Names.StorageKey | controllers/fileController.js:24-27 | the key holds no whitespace and no comma, so the final `trim` is a no-op: the key is the tag-stripped collapsed name |
| Names.StripExtension | controllers/fileController.js:36 | cuts the string at the match of `\.[a-zA-Z0-9]+$` when there is one, and otherwise leaves it unchanged |
| Names.StripExtensionAt | controllers/fileController.js:36 | a name ending in `.` plus an alphanumeric extension loses exactly that suffix |
| Names.BaseName | controllers/fileController.js:33-37 | the base name is the storage key without its extension |
| Names.ExtensionKept | controllers/fileController.js:24-37 | the key of `stem.ext` keeps `.ext`, and the base name is the sanitised stem |
| Names.TagRemovalCanLeaveDoubleHyphen | controllers/fileController.js:22-27 | a tag between two spaces becomes `--` in the storage key, while the display name keeps both spaces |
| CoverKeys.LanguageSegment | controllers/fileController.js:40 | a missing or empty language falls back to `Hindi`; any other value is kept |
| CoverKeys.YearSegment | controllers/fileController.js:39 | prints `null` iff the year is missing or 0; a positive year prints as digits that read back as it |
| CoverKeys.ImageMimeType | controllers/fileController.js:45-49 | the picture's format, or `image/jpg` when it is missing or empty; never empty |
| CoverKeys.ImageExtensionOf | controllers/fileController.js:52 | the extension is the text between the first `/` and any second one |
| CoverKeys.ImageExtensionWithoutSlash | controllers/fileController.js:52 | a type without `/` gives the extension `undefined` |
| CoverKeys.DefaultExtension | controllers/fileController.js:45-52 | the fallback type gives the extension `jpg` |
| CoverKeys.ImageExtension | controllers/fileController.js:52 | `split("/")[1]`, or `undefined` with no `/`; its meaning is stated by ImageExtensionOf and ImageExtensionWithoutSlash |
| CoverKeys.DimensionsText | controllers/fileController.js:54-55 | `${width}x${height}`; each side as stated by SizeText |
| CoverKeys.CoverKey | controllers/fileController.js:54-55 | the cover-key template; its fields and their recovery are stated by CoverKeyIsJoin, CoverKeyFieldsRecovered and CoverKeyExtension |
| CoverKeys.SizeText | controllers/fileController.js:54-55 | a known size prints as digits that read back as it; an unknown one as `undefined` |
| CoverKeys.CoverKeyIsJoin | controllers/fileController.js:54-55 | the cover key is its five fields joined by `-` |
| CoverKeys.CoverKeyFieldsRecovered | controllers/fileController.js:54-55 | splitting the key at `-` gives the fields back when no field holds a hyphen |
| CoverKeys.CoverKeyExtension | controllers/fileController.js:54-55 | the text after the key's last `.` is the image extension, when it holds no dot |
| UriComponent.Escape | controllers/fileController.js:82-88 | an escape is `%` and two digits that read back as the byte |
| UriComponent.Encode | controllers/fileController.js:82-88 | `encodeURIComponent`; stated by EncodeChars, EncodeLength, EncodeIsIdentity and the round trip DecodeEncode |
| UriComponent.Decode | controllers/fileController.js:134 | `decodeURIComponent`, `None` where it throws `URIError`; stated by DecodeEncode |
| UriComponent.Utf8Shape | controllers/fileController.js:82-88 | the UTF-8 bytes of a character announce their count, have continuation bytes after the first, and encode the code point |
| UriComponent.EncodeChars | controllers/fileController.js:82-88 | the encoding holds only unreserved characters, `%` and upper-case hex digits; in particular no `/` |
| UriComponent.EncodeLength | controllers/fileController.js:82-88 | the encoding is never shorter; it has the same length iff every character is unreserved, and then it is the input |
| UriComponent.EncodeIsIdentity | controllers/fileController.js:86-88 | the encoding equals the input iff every character is unreserved |
| UriComponent.ContinuationBytesOfEscapes | controllers/fileController.js:134 | the decoder reads back the continuation bytes the encoder escaped |
| UriComponent.DecodeStepOfEncodeChar | controllers/fileController.js:134 | the decoder reads back, at the head, the character the encoder wrote, consuming exactly its escapes |
| UriComponent.DecodeEncode | controllers/fileController.js:134 | `decodeURIComponent(encodeURIComponent(s)) == s` for every string |
| Urls.CoverImageUrl | controllers/fileController.js:86-88 | a cover link exists iff the cover key is set and not empty |
| Urls.ResourceUrl | controllers/fileController.js:82-88 | base URL, route path and encoded key; its last segment is stated by LastSegmentOfResourceUrl |
| Urls.ViewUrl | controllers/fileController.js:82 | the view link; stated by LinksEndInEncodedKey |
| Urls.DownloadUrl | controllers/fileController.js:83-85 | the download link; stated by LinksEndInEncodedKey |
| Urls.KeyFromUrl | controllers/fileController.js:180 | the key read from a link holds no `/` |
| Urls.LastSegmentOfResourceUrl | controllers/fileController.js:82-88 | the last segment of a link is the encoded key for any base URL, and one decode gives the key back |
| Urls.LinksEndInEncodedKey | controllers/fileController.js:82-88 | the view, download and cover links all end in the encoded key |
| Urls.RecoveredCoverKey | controllers/fileController.js:180 | the key the delete handler reads from a cover link equals the cover key iff every character of the key is unreserved |
| FileController.CoverOnlyForAudioWithPicture | controllers/fileController.js:29-67 | a cover is stored iff the type starts with `audio/`, metadata parses, there is a picture and sharp reads its size; it is the first picture with its type and an inline disposition; only a throwing collaborator fails the file |
| FileController.CoverFor | controllers/fileController.js:29-67 | the cover step of one file; stated by CoverOnlyForAudioWithPicture, AcceptedFilesAreParsed, CoverKeyComposition and CoverKeyNotEmpty |
| FileController.Commit | controllers/fileController.js:70-96 | the primary put and the record creation; stated by CommitEffects |
| FileController.CommitSteps | controllers/fileController.js:70-96 | a put under the storage key followed by the record creation is the commit |
| FileController.StoreOutcome | controllers/fileController.js:29-98 | one file's effects once its cover step is settled; stated by StoreOutcomeEffects |
| FileController.UploadOne | controllers/fileController.js:21-98 | the `map` callback for one file; stated by the UploadOne lemmas |
| FileController.UploadOneSteps | controllers/fileController.js:21-98 | one file's upload is nothing on a collaborator failure, else the cover put (if any) and then the commit |
| FileController.UploadAll | controllers/fileController.js:20-100 | the batch, file after file, stopping at the first failure; stated by UploadAllRecords, UploadAllFails and UploadAllFailureSticks |
| FileController.UploadRequest | controllers/fileController.js:15-107 | the handler's response and store; stated by EmptyRequestStoresNothing, and implemented by Backend.UploadFiles |
| FileController.AcceptedFilesAreParsed | controllers/fileController.js:30-31 | every type the filter accepts takes the audio branch, so a parser failure fails the file; no cover iff the metadata lists no picture |
| FileController.CoverKeyComposition | controllers/fileController.js:33-55 | the cover key joins base name, language, year, date token and `WxH.ext` with hyphens, and splits back into them when no field holds a hyphen |
| FileController.CoverKeyNotEmpty | controllers/fileController.js:86-88 | a cover key is never empty, so a stored cover always gets a link |
| FileController.CommitEffects | controllers/fileController.js:70-96 | the primary put, then a record under the next id with display name, links and key; other objects untouched; every record id stays below the next id |
| FileController.StoreOutcomeEffects | controllers/fileController.js:29-98 | for any settled cover step: failure iff a collaborator threw; otherwise the full log, records, objects and links of the file |
| FileController.UploadOneFails | controllers/fileController.js:21-98 | one file fails iff a collaborator throws, before it touches the store |
| FileController.UploadOneRecord | controllers/fileController.js:90-96 | a successful file gets one record under the next id, with its display name and storage key; the id invariant is kept |
| FileController.UploadOneLog | controllers/fileController.js:58-96 | the storage calls of one file in order: the cover put (if any), the primary put, the record |
| FileController.UploadOneLinks | controllers/fileController.js:82-88 | view and download links carry the storage key; a cover link exists iff a cover was stored, and it carries the cover key |
| FileController.UploadOneObjects | controllers/fileController.js:58-79 | the objects afterwards: the cover under its key, then the upload under the storage key, and everything else unchanged |
| FileController.UploadAllSnoc | controllers/fileController.js:20-100 | a batch extended by one file runs that file on the store the batch left, unless the batch already failed |
| FileController.UploadAllExtend | controllers/fileController.js:20-100 | one more successful file appends its record to a successful batch |
| FileController.UploadAllStop | controllers/fileController.js:20-100 | one more failing file fails the batch with the store as the earlier files left it |
| FileController.UploadAllRecords | controllers/fileController.js:20-102 | a successful batch returns one record per file, in input order, with consecutive ids, each stored with its display name and key |
| FileController.UploadAllFailsSnoc | controllers/fileController.js:20-105 | an extended batch fails iff the batch failed or the new file's collaborator throws |
| FileController.UploadAllFails | controllers/fileController.js:103-105 | the batch fails iff some file's collaborator throws |
| FileController.UploadAllFailureSticks | controllers/fileController.js:20-105 | once a prefix of the batch fails, every longer prefix fails with the same store; this holds of the sequential batch only, since in the source the other files' callbacks keep running after `Promise.all` rejects |
| FileController.EmptyRequestStoresNothing | controllers/fileController.js:17-18 | a missing or empty files list is answered 400 and changes nothing |
| FileController.DeleteEffects | controllers/fileController.js:166-197 | an unknown id is answered 404 with no effect; otherwise the primary object, the object named by the cover link's last segment and the record are deleted in that order, and the objects map is the old one without exactly those keys |
| FileController.DeleteRequest | controllers/fileController.js:166-197 | the delete handler's response and store; stated by DeleteEffects and DeleteLeavesEscapedCover |
| FileController.DeleteKeepsKeys | controllers/fileController.js:172-187 | after deleting a known record the bucket keeps exactly the keys other than the file's key and the cover link's last segment |
| FileController.DeleteLeavesEscapedCover | controllers/fileController.js:179-187 | after an upload with a cover and a delete, the file's object is gone; the cover object stays iff its key differs from the storage key and holds an escaped character |
| FileController.Backend.PutObject | controllers/fileController.js:58-66 | the object is stored under its key and the put is logged |
| FileController.Backend.DeleteObject | controllers/fileController.js:172-177 | the key is removed (a missing key is no error) and the delete is logged |
| FileController.Backend.CreateRecord | controllers/fileController.js:90-96 | the record is stored under the next id, which is returned and advanced |
| FileController.Backend.DeleteRecord | controllers/fileController.js:190 | the record is removed and the removal logged |
| FileController.Backend.StoreCover | controllers/fileController.js:29-67 | the imperative cover step fails iff a collaborator throws, stores the cover under its key exactly when there is one, and otherwise changes nothing |
| FileController.Backend.UploadFile | controllers/fileController.js:21-98 | the imperative callback leaves the store unchanged on failure and otherwise produces exactly the specified store and record |
| FileController.Backend.UploadFiles | controllers/fileController.js:15-107 | the loop over the files produces exactly the response and store of the specified request |
| FileController.Backend.DeleteUploadedFile | controllers/fileController.js:166-197 | the imperative delete produces exactly the specified response and store |

## Left out

- `getFiles`, `viewCoverURL`, `viewUploadedFile` and `downloadUploadedFile` are not modelled. They only read or redirect. The single `decodeURIComponent` that the last three apply to their key is modelled as `UriComponent.Decode`.
- Redirects to the S3 URL built from `AWS_REGION`, and pre-signed download URLs, are not modelled: they are I/O and signing.
- Failures of S3 and MongoDB calls are not modelled: every put, create and delete succeeds. Only the collaborators (music-metadata, sharp) can fail a file.
- FileController.UploadAll: the source runs the files concurrently with `Promise.all`. The model runs them in order and stops at the first failure. In the source, other files' callbacks may still complete their puts and creates after the 500 response.
- music-metadata and sharp are not modelled. What they report for each file is a parameter (`Collaborators`), and an exception is `None`.
- The clock and `Math.random` are parameters (`DateParts`). `Math.random`'s floating point is modelled on exact reals.
- `BASE_URL` is a parameter. An unset variable prints as `undefined`, which is one more value of it.
- Express's own percent-decoding of route parameters is not modelled. Neither are routes or the response bodies beyond their status.
- The multer middleware's handling of a rejected file or an oversized one is not modelled. That middleware is not part of this model: the filter and the limit are modelled as predicates, and `UploadRequest` takes the files that passed them.
- A malformed record id (a Mongoose `CastError`, answered 500) is not modelled. Ids are natural numbers.
- The record's `uploadedAt` default and the Mongoose schema are not modelled.
- Strings are sequences of Unicode scalar values, so lone UTF-16 surrogates (a `URIError` from `encodeURIComponent`) cannot arise.
- A missing `picture` list in the audio metadata is modelled as an empty one, which the handler treats the same way.
- CoverKeys.YearSegment: `year` is an integer, so a `NaN` year (which would also print `null`) is not modelled. JavaScript prints a Number of magnitude 10^21 or more in exponent notation (`1e+21`); the model prints every year as plain decimal digits, and its contract promises digits for every positive year.
- Text.IntToString: prints every integer in plain decimal; it does not model the exponent notation JavaScript uses for Numbers of magnitude 10^21 or more.
