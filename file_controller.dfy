/**
 * The upload and delete handlers of controllers/fileController.js over an
 * abstract bucket and record collection. The bucket maps keys to objects,
 * the collection maps record ids to documents, and a log keeps the storage
 * effects in the order the handlers await them. What the foreign libraries
 * and the clock answer for a file is passed in as `Collaborators`; storage
 * calls do not fail in this model.
 */
module FileController {
  import opened Wrappers
  import opened Text
  import opened Names
  import opened CoverKeys
  import opened Urls
  import UriComponent
  import FormatDate
  import Multer

  /** A file as the upload middleware hands it over: original name,
      declared MIME type and the bytes held in memory. */
  datatype UploadedFile = UploadedFile(originalName: string, mimeType: string, buffer: seq<Byte>)

  /** What the collaborators answer for one file: the parsed audio metadata
      (`None` when music-metadata throws), the cover image's size (`None`
      when sharp throws) and the clock and random draw behind the token. */
  datatype Collaborators = Collaborators(metadata: Option<AudioMetadata>, dimensions: Option<Dimensions>, date: FormatDate.DateParts)

  /** The document `File.create` stores (lines 90-96). */
  datatype FileRecord = FileRecord(filename: string, viewUrl: string, downloadUrl: string, coverImageUrl: Option<string>, key: string)

  /** A created document together with its id. */
  datatype StoredRecord = StoredRecord(id: nat, record: FileRecord)

  /** An object of the bucket: its body and the two headers it is put with. */
  datatype StoredObject = StoredObject(body: seq<Byte>, contentType: string, contentDisposition: string)

  datatype Effect =
    | ObjectPut(key: string)
    | RecordCreated(id: nat)
    | ObjectDeleted(key: string)
    | RecordDeleted(id: nat)

  datatype Store = Store(objects: map<string, StoredObject>, records: map<nat, FileRecord>, nextId: nat, log: seq<Effect>)

  /** Status 400 "No files uploaded", 200 "Files uploaded successfully!"
      with the created documents, or 500 "File upload failed". */
  datatype UploadResponse = NoFilesUploaded | FilesUploaded(files: seq<StoredRecord>) | UploadFailed

  /** Status 404 "File not found" or 200 "File deleted successfully". */
  datatype DeleteResponse = FileNotFound | FileDeleted

  /** Every record id was handed out before. */
  predicate ValidStore(st: Store) {
    forall id :: id in st.records ==> id < st.nextId
  }

  /** `inline; filename="<key>"`. */
  function Disposition(key: string): string {
    "inline; filename=\"" + key + "\""
  }

  function Put(st: Store, key: string, obj: StoredObject): Store {
    st.(objects := st.objects[key := obj], log := st.log + [ObjectPut(key)])
  }

  function Create(st: Store, rec: FileRecord): (Store, StoredRecord) {
    (st.(records := st.records[st.nextId := rec], nextId := st.nextId + 1, log := st.log + [RecordCreated(st.nextId)]),
     StoredRecord(st.nextId, rec))
  }

  function Remove(st: Store, key: string): Store {
    st.(objects := st.objects - {key}, log := st.log + [ObjectDeleted(key)])
  }

  function RemoveRecord(st: Store, id: nat): Store {
    st.(records := st.records - {id}, log := st.log + [RecordDeleted(id)])
  }

  /** What lines 29-67 settle before the primary upload: no cover, a cover
      to store under its key, or a collaborator that threw. */
  datatype CoverOutcome = NoCover | Cover(key: string, obj: StoredObject) | CollaboratorFailed

  function CoverFor(f: UploadedFile, c: Collaborators): CoverOutcome {
    if !StartsWith(f.mimeType, "audio/") then NoCover
    else match c.metadata
      case None => CollaboratorFailed
      case Some(meta) =>
        if |meta.pictures| == 0 then NoCover
        else
          var picture := meta.pictures[0];
          var mimeType := ImageMimeType(picture.format);
          match c.dimensions
            case None => CollaboratorFailed
            case Some(size) =>
              var key := CoverKey(BaseName(f.originalName), meta, FormatDate.FormattedDate(c.date), size, ImageExtension(mimeType));
              Cover(key, StoredObject(picture.data, mimeType, Disposition(key)))
  }

  /** Lines 70-96 for one file, after its cover (if any) is stored: the
      primary upload, then the record. */
  function Commit(st: Store, f: UploadedFile, coverKey: Option<string>, baseUrl: string): (Store, StoredRecord) {
    var key := StorageKey(f.originalName);
    var st1 := Put(st, key, StoredObject(f.buffer, f.mimeType, Disposition(key)));
    var rec := FileRecord(DisplayName(f.originalName), ViewUrl(baseUrl, key), DownloadUrl(baseUrl, key),
                          CoverImageUrl(baseUrl, coverKey), key);
    Create(st1, rec)
  }

  /** The body of the `map` callback (lines 21-98) for one file: `None`
      when a collaborator throws, which happens before this file touches
      the store. */
  function UploadOne(st: Store, f: UploadedFile, c: Collaborators, baseUrl: string): Option<(Store, StoredRecord)> {
    StoreOutcome(st, f, CoverFor(f, c), baseUrl)
  }

  /** The store side of one file once its cover step is settled. */
  function StoreOutcome(st: Store, f: UploadedFile, outcome: CoverOutcome, baseUrl: string): Option<(Store, StoredRecord)> {
    match outcome
      case CollaboratorFailed => None
      case NoCover => Some(Commit(st, f, None, baseUrl))
      case Cover(key, obj) => Some(Commit(Put(st, key, obj), f, Some(key), baseUrl))
  }

  /** The files in order, each against the store the previous ones left;
      the first failure ends the batch and leaves the store as it stands. */
  function UploadAll(st: Store, fs: seq<UploadedFile>, cs: seq<Collaborators>, baseUrl: string): (Store, Option<seq<StoredRecord>>)
    requires |fs| == |cs|
    decreases |fs|
  {
    if fs == [] then (st, Some([]))
    else
      var n := |fs| - 1;
      var (st1, done) := UploadAll(st, fs[..n], cs[..n], baseUrl);
      if done.None? then (st1, None)
      else match UploadOne(st1, fs[n], cs[n], baseUrl)
        case None => (st1, None)
        case Some((st2, stored)) => (st2, Some(done.value + [stored]))
  }

  /** `uploadFiles` (lines 15-107); `None` stands for a request without a
      files list. */
  function UploadRequest(st: Store, files: Option<seq<UploadedFile>>, cs: seq<Collaborators>, baseUrl: string): (Store, UploadResponse)
    requires files.Some? ==> |files.value| == |cs|
  {
    if files.None? || files.value == [] then (st, NoFilesUploaded)
    else
      var (st1, done) := UploadAll(st, files.value, cs, baseUrl);
      if done.Some? then (st1, FilesUploaded(done.value)) else (st1, UploadFailed)
  }

  /** `deleteUploadedFile` (lines 166-197): the primary object, then the
      object named by the last segment of a set cover link, then the record. */
  function DeleteRequest(st: Store, id: nat): (Store, DeleteResponse) {
    if id !in st.records then (st, FileNotFound)
    else
      var file := st.records[id];
      var st1 := Remove(st, file.key);
      var st2 := if file.coverImageUrl.Some? && file.coverImageUrl.value != []
        then Remove(st1, KeyFromUrl(file.coverImageUrl.value)) else st1;
      (RemoveRecord(st2, id), FileDeleted)
  }

  // ---------------------------------------------------------------------
  // Properties of one file's upload

  /** A cover is stored only for an `audio/` type whose metadata lists a
      picture, and then it is the first picture, with its format or the
      fallback type. Only a collaborator's exception fails the file. */
  lemma CoverOnlyForAudioWithPicture(f: UploadedFile, c: Collaborators)
    ensures CoverFor(f, c).Cover? <==>
      StartsWith(f.mimeType, "audio/") && c.metadata.Some? && |c.metadata.value.pictures| > 0 && c.dimensions.Some?
    ensures CoverFor(f, c).CollaboratorFailed? <==>
      StartsWith(f.mimeType, "audio/") &&
      (c.metadata.None? || (|c.metadata.value.pictures| > 0 && c.dimensions.None?))
    ensures CoverFor(f, c).Cover? ==>
      var picture := c.metadata.value.pictures[0];
      && CoverFor(f, c).obj.body == picture.data
      && CoverFor(f, c).obj.contentType == ImageMimeType(picture.format)
      && CoverFor(f, c).obj.contentDisposition == Disposition(CoverFor(f, c).key)
  {
  }

  /** Every type the upload filter accepts takes the `audio/` branch, so
      the metadata parser runs for every accepted file. */
  lemma AcceptedFilesAreParsed(f: UploadedFile, c: Collaborators)
    requires Multer.FileFilter(f.mimeType).accept
    ensures c.metadata.None? ==> CoverFor(f, c).CollaboratorFailed?
    ensures CoverFor(f, c).NoCover? <==> c.metadata.Some? && |c.metadata.value.pictures| == 0
  {
    Multer.AcceptedTypesAreAudio(f.mimeType);
  }

  /** The cover key has the five fields of the template, the first being
      the base name of the upload; when no field holds a hyphen, splitting
      the key at hyphens gives the fields back. */
  lemma CoverKeyComposition(f: UploadedFile, c: Collaborators)
    requires CoverFor(f, c).Cover?
    ensures var meta, size := c.metadata.value, c.dimensions.value;
      var mimeType := ImageMimeType(meta.pictures[0].format);
      var fields := [BaseName(f.originalName), LanguageSegment(meta.language), YearSegment(meta.year),
                     FormatDate.FormattedDate(c.date), DimensionsText(size) + "." + ImageExtension(mimeType)];
      && CoverFor(f, c).key == Join(fields, '-')
      && ((forall i :: 0 <= i < |fields| ==> '-' !in fields[i]) ==> Split(CoverFor(f, c).key, '-') == fields)
  {
    var meta, size := c.metadata.value, c.dimensions.value;
    var mimeType := ImageMimeType(meta.pictures[0].format);
    var base, token, ext := BaseName(f.originalName), FormatDate.FormattedDate(c.date), ImageExtension(mimeType);
    CoverKeyIsJoin(base, meta, token, size, ext);
    var fields := CoverKeyFields(base, meta, token, size, ext);
    if forall i :: 0 <= i < |fields| ==> '-' !in fields[i] {
      CoverKeyFieldsRecovered(base, meta, token, size, ext);
    }
  }

  /** A cover key is never empty, so a stored cover always gets a link. */
  lemma CoverKeyNotEmpty(f: UploadedFile, c: Collaborators)
    requires CoverFor(f, c).Cover?
    ensures CoverFor(f, c).key != []
  {
    var meta := c.metadata.value;
    var mimeType := ImageMimeType(meta.pictures[0].format);
    var base, token, ext := BaseName(f.originalName), FormatDate.FormattedDate(c.date), ImageExtension(mimeType);
    CoverKeyIsJoin(base, meta, token, c.dimensions.value, ext);
  }

  /** Storing a file after its cover step: the primary put, then the
      record with the next id; every other object is untouched. */
  lemma CommitEffects(st: Store, f: UploadedFile, coverKey: Option<string>, baseUrl: string)
    ensures var (st1, stored) := Commit(st, f, coverKey, baseUrl);
      var key := StorageKey(f.originalName);
      && st1.log == st.log + [ObjectPut(key), RecordCreated(st.nextId)]
      && stored.id == st.nextId && st1.nextId == st.nextId + 1
      && st1.records == st.records[stored.id := stored.record]
      && stored.record == FileRecord(DisplayName(f.originalName), ViewUrl(baseUrl, key), DownloadUrl(baseUrl, key),
                                     CoverImageUrl(baseUrl, coverKey), key)
      && st1.objects == st.objects[key := StoredObject(f.buffer, f.mimeType, Disposition(key))]
      && (ValidStore(st) ==> ValidStore(st1))
  {
    var key := StorageKey(f.originalName);
    var st0 := Put(st, key, StoredObject(f.buffer, f.mimeType, Disposition(key)));
    var rec := FileRecord(DisplayName(f.originalName), ViewUrl(baseUrl, key), DownloadUrl(baseUrl, key),
                          CoverImageUrl(baseUrl, coverKey), key);
    assert Commit(st, f, coverKey, baseUrl) == Create(st0, rec);
    assert [ObjectPut(key)] + [RecordCreated(st.nextId)] == [ObjectPut(key), RecordCreated(st.nextId)];
    ConcatAssoc(st.log, [ObjectPut(key)], [RecordCreated(st.nextId)]);
  }

  /** The store side of one file for any settled cover step. */
  lemma StoreOutcomeEffects(st: Store, f: UploadedFile, outcome: CoverOutcome, baseUrl: string)
    requires outcome.Cover? ==> outcome.key != []
    ensures StoreOutcome(st, f, outcome, baseUrl).None? <==> outcome.CollaboratorFailed?
    ensures StoreOutcome(st, f, outcome, baseUrl).Some? ==>
      var (st1, stored) := StoreOutcome(st, f, outcome, baseUrl).value;
      var key := StorageKey(f.originalName);
      var coverPuts := if outcome.Cover? then [ObjectPut(outcome.key)] else [];
      var before := if outcome.Cover? then Put(st, outcome.key, outcome.obj) else st;
      && st1.log == st.log + coverPuts + [ObjectPut(key), RecordCreated(st.nextId)]
      && stored.id == st.nextId && st1.nextId == st.nextId + 1
      && st1.records == st.records[stored.id := stored.record]
      && stored.record.filename == DisplayName(f.originalName)
      && stored.record.key == key
      && stored.record.viewUrl == ViewUrl(baseUrl, key)
      && stored.record.downloadUrl == DownloadUrl(baseUrl, key)
      && (stored.record.coverImageUrl.Some? <==> outcome.Cover?)
      && (outcome.Cover? ==> stored.record.coverImageUrl == Some(ResourceUrl(baseUrl, CoverPath, outcome.key)))
      && st1.objects == before.objects[key := StoredObject(f.buffer, f.mimeType, Disposition(key))]
      && (ValidStore(st) ==> ValidStore(st1))
  {
    match outcome
    case CollaboratorFailed =>
    case NoCover =>
      CommitEffects(st, f, None, baseUrl);
      assert st.log + [] == st.log;
    case Cover(coverKey, obj) =>
      CommitEffects(Put(st, coverKey, obj), f, Some(coverKey), baseUrl);
  }

  /** One file's upload fails exactly when a collaborator throws. */
  lemma UploadOneFails(st: Store, f: UploadedFile, c: Collaborators, baseUrl: string)
    ensures UploadOne(st, f, c, baseUrl).None? <==> CoverFor(f, c).CollaboratorFailed?
  {
    if CoverFor(f, c).Cover? {
      CoverKeyNotEmpty(f, c);
    }
    StoreOutcomeEffects(st, f, CoverFor(f, c), baseUrl);
  }

  /** One file's upload in steps: nothing when a collaborator throws,
      otherwise the cover put (when there is a cover) and then the commit. */
  lemma UploadOneSteps(st: Store, f: UploadedFile, c: Collaborators, baseUrl: string)
    ensures var outcome := CoverFor(f, c);
      UploadOne(st, f, c, baseUrl) ==
        if outcome.CollaboratorFailed? then None
        else if outcome.Cover? then Some(Commit(Put(st, outcome.key, outcome.obj), f, Some(outcome.key), baseUrl))
        else Some(Commit(st, f, None, baseUrl))
  {
  }

  /** The primary put followed by the record creation is the commit. */
  lemma CommitSteps(st: Store, f: UploadedFile, coverKey: Option<string>, baseUrl: string,
                    st1: Store, st2: Store, stored: StoredRecord)
    requires var key := StorageKey(f.originalName);
      st1 == Put(st, key, StoredObject(f.buffer, f.mimeType, Disposition(key)))
    requires var key := StorageKey(f.originalName);
      (st2, stored) == Create(st1, FileRecord(DisplayName(f.originalName), ViewUrl(baseUrl, key), DownloadUrl(baseUrl, key),
                                              CoverImageUrl(baseUrl, coverKey), key))
    ensures Commit(st, f, coverKey, baseUrl) == (st2, stored)
  {
  }

  /** A successful upload creates one record under the next id, named by
      the display name and keyed by the storage key, and keeps every record
      id below the next one. */
  lemma UploadOneRecord(st: Store, f: UploadedFile, c: Collaborators, baseUrl: string)
    ensures UploadOne(st, f, c, baseUrl).Some? ==>
      var (st1, stored) := UploadOne(st, f, c, baseUrl).value;
      && stored.id == st.nextId && st1.nextId == st.nextId + 1
      && st1.records == st.records[stored.id := stored.record]
      && stored.record.filename == DisplayName(f.originalName)
      && stored.record.key == StorageKey(f.originalName)
      && (ValidStore(st) ==> ValidStore(st1))
  {
    if CoverFor(f, c).Cover? {
      CoverKeyNotEmpty(f, c);
    }
    StoreOutcomeEffects(st, f, CoverFor(f, c), baseUrl);
  }

  /** The storage calls of one file, in order: the cover put when there
      is a cover, then the primary put, then the record. */
  lemma UploadOneLog(st: Store, f: UploadedFile, c: Collaborators, baseUrl: string)
    ensures UploadOne(st, f, c, baseUrl).Some? ==>
      var outcome := CoverFor(f, c);
      var coverPuts := if outcome.Cover? then [ObjectPut(outcome.key)] else [];
      UploadOne(st, f, c, baseUrl).value.0.log ==
        st.log + coverPuts + [ObjectPut(StorageKey(f.originalName)), RecordCreated(st.nextId)]
  {
    if CoverFor(f, c).Cover? {
      CoverKeyNotEmpty(f, c);
    }
    StoreOutcomeEffects(st, f, CoverFor(f, c), baseUrl);
  }

  /** The links of the record: view and download links carry the storage
      key, and a cover link exists exactly when a cover was stored, and
      then carries the cover key. */
  lemma UploadOneLinks(st: Store, f: UploadedFile, c: Collaborators, baseUrl: string)
    ensures UploadOne(st, f, c, baseUrl).Some? ==>
      var record := UploadOne(st, f, c, baseUrl).value.1.record;
      var outcome, key := CoverFor(f, c), StorageKey(f.originalName);
      && record.viewUrl == ViewUrl(baseUrl, key)
      && record.downloadUrl == DownloadUrl(baseUrl, key)
      && (record.coverImageUrl.Some? <==> outcome.Cover?)
      && (outcome.Cover? ==> record.coverImageUrl == Some(ResourceUrl(baseUrl, CoverPath, outcome.key)))
  {
    if CoverFor(f, c).Cover? {
      CoverKeyNotEmpty(f, c);
    }
    StoreOutcomeEffects(st, f, CoverFor(f, c), baseUrl);
  }

  /** The objects after one file: the upload under its storage key, the
      cover under the cover key, and every other object as it was. A cover
      whose key equals the storage key is overwritten by the upload. */
  lemma UploadOneObjects(st: Store, f: UploadedFile, c: Collaborators, baseUrl: string)
    ensures UploadOne(st, f, c, baseUrl).Some? ==>
      var objects := UploadOne(st, f, c, baseUrl).value.0.objects;
      var outcome, key := CoverFor(f, c), StorageKey(f.originalName);
      && objects == (if outcome.Cover? then st.objects[outcome.key := outcome.obj] else st.objects)
                      [key := StoredObject(f.buffer, f.mimeType, Disposition(key))]
  {
    if CoverFor(f, c).Cover? {
      CoverKeyNotEmpty(f, c);
    }
    StoreOutcomeEffects(st, f, CoverFor(f, c), baseUrl);
  }

  // ---------------------------------------------------------------------
  // Properties of a batch

  /** Extending a batch by one file runs that file against the store the
      batch left, unless the batch already failed. */
  lemma UploadAllSnoc(st: Store, fs: seq<UploadedFile>, cs: seq<Collaborators>, f: UploadedFile, c: Collaborators, baseUrl: string)
    requires |fs| == |cs|
    ensures var (st1, done) := UploadAll(st, fs, cs, baseUrl);
      UploadAll(st, fs + [f], cs + [c], baseUrl) ==
        if done.None? then (st1, None)
        else match UploadOne(st1, f, c, baseUrl)
          case None => (st1, None)
          case Some((st2, stored)) => (st2, Some(done.value + [stored]))
  {
    assert (fs + [f])[..|fs|] == fs;
    assert (cs + [c])[..|cs|] == cs;
  }

  /** One more file that uploads extends a successful batch by its record. */
  lemma UploadAllExtend(st: Store, fs: seq<UploadedFile>, cs: seq<Collaborators>, f: UploadedFile, c: Collaborators, baseUrl: string,
                        st1: Store, done: seq<StoredRecord>, st2: Store, stored: StoredRecord)
    requires |fs| == |cs|
    requires UploadAll(st, fs, cs, baseUrl) == (st1, Some(done))
    requires UploadOne(st1, f, c, baseUrl) == Some((st2, stored))
    ensures UploadAll(st, fs + [f], cs + [c], baseUrl) == (st2, Some(done + [stored]))
  {
    UploadAllSnoc(st, fs, cs, f, c, baseUrl);
  }

  /** One more file whose collaborator throws fails the batch and leaves
      the store as the earlier files left it. */
  lemma UploadAllStop(st: Store, fs: seq<UploadedFile>, cs: seq<Collaborators>, f: UploadedFile, c: Collaborators, baseUrl: string,
                      st1: Store, done: seq<StoredRecord>)
    requires |fs| == |cs|
    requires UploadAll(st, fs, cs, baseUrl) == (st1, Some(done))
    requires UploadOne(st1, f, c, baseUrl).None?
    ensures UploadAll(st, fs + [f], cs + [c], baseUrl) == (st1, None)
  {
    UploadAllSnoc(st, fs, cs, f, c, baseUrl);
  }

  /** A successful batch returns one record per file, in input order, with
      consecutive ids, each still stored with its display name and key. */
  lemma {:induction false} UploadAllRecords(st: Store, fs: seq<UploadedFile>, cs: seq<Collaborators>, baseUrl: string)
    requires |fs| == |cs| && ValidStore(st)
    ensures var (st1, done) := UploadAll(st, fs, cs, baseUrl);
      done.Some? ==>
        && |done.value| == |fs|
        && st1.nextId == st.nextId + |fs|
        && ValidStore(st1)
        && forall i :: 0 <= i < |fs| ==>
             && done.value[i].id == st.nextId + i
             && done.value[i].record.filename == DisplayName(fs[i].originalName)
             && done.value[i].record.key == StorageKey(fs[i].originalName)
             && done.value[i].id in st1.records
             && st1.records[done.value[i].id] == done.value[i].record
    decreases |fs|
  {
    if fs != [] {
      var n := |fs| - 1;
      var fs0, cs0 := fs[..n], cs[..n];
      assert fs == fs0 + [fs[n]] && cs == cs0 + [cs[n]];
      UploadAllRecords(st, fs0, cs0, baseUrl);
      UploadAllSnoc(st, fs0, cs0, fs[n], cs[n], baseUrl);
      var (st1, done) := UploadAll(st, fs0, cs0, baseUrl);
      if done.Some? {
        UploadOneRecord(st1, fs[n], cs[n], baseUrl);
        if UploadOne(st1, fs[n], cs[n], baseUrl).Some? {
          var (st2, stored) := UploadOne(st1, fs[n], cs[n], baseUrl).value;
          var all := done.value + [stored];
          forall i | 0 <= i < |fs|
            ensures all[i].id == st.nextId + i
            ensures all[i].record.filename == DisplayName(fs[i].originalName)
            ensures all[i].record.key == StorageKey(fs[i].originalName)
            ensures all[i].id in st2.records && st2.records[all[i].id] == all[i].record
          {
            if i < n {
              assert fs0[i] == fs[i];
            }
          }
        }
      }
    }
  }

  /** A batch extended by one file fails exactly when the batch failed or
      that file's collaborator throws. */
  lemma UploadAllFailsSnoc(st: Store, fs: seq<UploadedFile>, cs: seq<Collaborators>, f: UploadedFile, c: Collaborators, baseUrl: string)
    requires |fs| == |cs|
    ensures UploadAll(st, fs + [f], cs + [c], baseUrl).1.None? <==>
      UploadAll(st, fs, cs, baseUrl).1.None? || CoverFor(f, c).CollaboratorFailed?
  {
    UploadAllSnoc(st, fs, cs, f, c, baseUrl);
    UploadOneFails(UploadAll(st, fs, cs, baseUrl).0, f, c, baseUrl);
  }

  /** Some file of the batch has a collaborator that throws. */
  predicate SomeCollaboratorFails(fs: seq<UploadedFile>, cs: seq<Collaborators>)
    requires |fs| == |cs|
  {
    exists i :: 0 <= i < |fs| && CoverFor(fs[i], cs[i]).CollaboratorFailed?
  }

  lemma SomeCollaboratorFailsSnoc(fs: seq<UploadedFile>, cs: seq<Collaborators>, f: UploadedFile, c: Collaborators)
    requires |fs| == |cs|
    ensures SomeCollaboratorFails(fs + [f], cs + [c]) <==> SomeCollaboratorFails(fs, cs) || CoverFor(f, c).CollaboratorFailed?
  {
    var fs1, cs1 := fs + [f], cs + [c];
    if SomeCollaboratorFails(fs, cs) {
      var i :| 0 <= i < |fs| && CoverFor(fs[i], cs[i]).CollaboratorFailed?;
      assert fs1[i] == fs[i] && cs1[i] == cs[i];
    }
    if SomeCollaboratorFails(fs1, cs1) {
      var i :| 0 <= i < |fs1| && CoverFor(fs1[i], cs1[i]).CollaboratorFailed?;
      if i < |fs| {
        assert fs1[i] == fs[i] && cs1[i] == cs[i];
      }
    }
    if CoverFor(f, c).CollaboratorFailed? {
      assert fs1[|fs|] == f && cs1[|fs|] == c;
    }
  }

  /** The batch fails exactly when some file's collaborator throws. */
  lemma {:induction false} UploadAllFails(st: Store, fs: seq<UploadedFile>, cs: seq<Collaborators>, baseUrl: string)
    requires |fs| == |cs|
    ensures UploadAll(st, fs, cs, baseUrl).1.None? <==> SomeCollaboratorFails(fs, cs)
    decreases |fs|
  {
    if fs != [] {
      var n := |fs| - 1;
      var fs0, cs0 := fs[..n], cs[..n];
      assert fs == fs0 + [fs[n]] && cs == cs0 + [cs[n]];
      UploadAllFails(st, fs0, cs0, baseUrl);
      UploadAllFailsSnoc(st, fs0, cs0, fs[n], cs[n], baseUrl);
      SomeCollaboratorFailsSnoc(fs0, cs0, fs[n], cs[n]);
    }
  }

  /** Once a prefix of the batch has failed, the longer prefixes fail with
      the same store. */
  lemma {:induction false} UploadAllFailureSticks(st: Store, fs: seq<UploadedFile>, cs: seq<Collaborators>, baseUrl: string, i: nat, j: nat)
    requires |fs| == |cs| && i <= j <= |fs|
    requires UploadAll(st, fs[..i], cs[..i], baseUrl).1.None?
    ensures UploadAll(st, fs[..j], cs[..j], baseUrl) == UploadAll(st, fs[..i], cs[..i], baseUrl)
    decreases j - i
  {
    if i < j {
      UploadAllFailureSticks(st, fs, cs, baseUrl, i, j - 1);
      assert fs[..j] == fs[..j - 1] + [fs[j - 1]];
      assert cs[..j] == cs[..j - 1] + [cs[j - 1]];
      UploadAllSnoc(st, fs[..j - 1], cs[..j - 1], fs[j - 1], cs[j - 1], baseUrl);
    }
  }

  /** An empty or missing files list is answered 400 and stores nothing. */
  lemma EmptyRequestStoresNothing(st: Store, files: Option<seq<UploadedFile>>, cs: seq<Collaborators>, baseUrl: string)
    requires files.Some? ==> |files.value| == |cs|
    requires files.None? || files.value == []
    ensures UploadRequest(st, files, cs, baseUrl) == (st, NoFilesUploaded)
  {
  }

  // ---------------------------------------------------------------------
  // Properties of delete

  /** Deleting: an unknown id is answered 404 with no storage call;
      otherwise the primary object, then the last segment of a set cover
      link, then the record are deleted, in that order, and nothing else. */
  lemma DeleteEffects(st: Store, id: nat)
    ensures id !in st.records ==> DeleteRequest(st, id) == (st, FileNotFound)
    ensures id in st.records ==>
      var (st1, response) := DeleteRequest(st, id);
      var file := st.records[id];
      var hasCover := file.coverImageUrl.Some? && file.coverImageUrl.value != [];
      var coverDeletes := if hasCover then [ObjectDeleted(KeyFromUrl(file.coverImageUrl.value))] else [];
      && response == FileDeleted
      && st1.log == st.log + [ObjectDeleted(file.key)] + coverDeletes + [RecordDeleted(id)]
      && st1.records == st.records - {id}
      && st1.nextId == st.nextId
      && file.key !in st1.objects
      && st1.objects == st.objects - {file.key} - (if hasCover then {KeyFromUrl(file.coverImageUrl.value)} else {})
      && (ValidStore(st) ==> ValidStore(st1))
  {
  }

  /** Which keys a delete of a known record leaves in the bucket. */
  lemma DeleteKeepsKeys(st: Store, id: nat)
    requires id in st.records
    ensures var file := st.records[id];
      var hasCover := file.coverImageUrl.Some? && file.coverImageUrl.value != [];
      forall k :: k in DeleteRequest(st, id).0.objects <==>
        (k in st.objects && k != file.key && !(hasCover && k == KeyFromUrl(file.coverImageUrl.value)))
  {
  }

  /** Uploading a file with a cover and then deleting its record leaves the
      cover object behind exactly when its key differs from the file's key
      and has a character `encodeURIComponent` escapes: the delete handler
      uses the still-encoded last segment of the cover link as the key. */
  lemma DeleteLeavesEscapedCover(st: Store, f: UploadedFile, c: Collaborators, baseUrl: string)
    requires CoverFor(f, c).Cover?
    ensures var (st1, stored) := UploadOne(st, f, c, baseUrl).value;
      var st2 := DeleteRequest(st1, stored.id).0;
      var coverKey := CoverFor(f, c).key;
      && StorageKey(f.originalName) !in st2.objects
      && (coverKey in st2.objects <==>
            coverKey != StorageKey(f.originalName) &&
            exists i :: 0 <= i < |coverKey| && !UriComponent.IsUnreserved(coverKey[i]))
  {
    UploadOneFails(st, f, c, baseUrl);
    UploadOneRecord(st, f, c, baseUrl);
    UploadOneLinks(st, f, c, baseUrl);
    UploadOneObjects(st, f, c, baseUrl);
    var (st1, stored) := UploadOne(st, f, c, baseUrl).value;
    var coverKey := CoverFor(f, c).key;
    RecoveredCoverKey(baseUrl, coverKey);
    DeleteKeepsKeys(st1, stored.id);
  }

  // ---------------------------------------------------------------------
  // The handlers, step by step

  class Backend {
    var objects: map<string, StoredObject>
    var records: map<nat, FileRecord>
    var nextId: nat
    var log: seq<Effect>

    function State(): Store
      reads this
    {
      Store(objects, records, nextId, log)
    }

    /** An empty bucket and collection. */
    constructor ()
      ensures State() == Store(map[], map[], 0, [])
      ensures ValidStore(State())
    {
      objects, records, nextId, log := map[], map[], 0, [];
    }

    /** `s3.send(new PutObjectCommand(...))`. */
    method PutObject(key: string, obj: StoredObject)
      modifies this
      ensures State() == Put(old(State()), key, obj)
    {
      objects := objects[key := obj];
      log := log + [ObjectPut(key)];
    }

    /** `s3.send(new DeleteObjectCommand(...))`; a missing key is no error. */
    method DeleteObject(key: string)
      modifies this
      ensures State() == Remove(old(State()), key)
    {
      objects := objects - {key};
      log := log + [ObjectDeleted(key)];
    }

    /** `File.create(...)`. */
    method CreateRecord(rec: FileRecord) returns (stored: StoredRecord)
      modifies this
      ensures (State(), stored) == Create(old(State()), rec)
    {
      stored := StoredRecord(nextId, rec);
      records := records[nextId := rec];
      log := log + [RecordCreated(nextId)];
      nextId := nextId + 1;
    }

    /** `file.deleteOne()`. */
    method DeleteRecord(id: nat)
      modifies this
      ensures State() == RemoveRecord(old(State()), id)
    {
      records := records - {id};
      log := log + [RecordDeleted(id)];
    }

    /** The cover step of one file (lines 29-67): reports whether a
        collaborator threw, and stores the cover when there is one. */
    method StoreCover(f: UploadedFile, c: Collaborators) returns (failed: bool, coverImageKey: Option<string>)
      modifies this
      ensures failed <==> CoverFor(f, c).CollaboratorFailed?
      ensures CoverFor(f, c).Cover? ==>
        coverImageKey == Some(CoverFor(f, c).key) && State() == Put(old(State()), CoverFor(f, c).key, CoverFor(f, c).obj)
      ensures !CoverFor(f, c).Cover? ==> coverImageKey == None && State() == old(State())
    {
      coverImageKey := None;
      if StartsWith(f.mimeType, "audio/") {
        if c.metadata.None? {
          return true, None;
        }
        var meta := c.metadata.value;
        var fileBaseName := BaseName(f.originalName);
        if |meta.pictures| > 0 {
          var picture := meta.pictures[0];
          var imageMimeType := ImageMimeType(picture.format);
          if c.dimensions.None? {
            return true, None;
          }
          var imageExt := ImageExtension(imageMimeType);
          var key := CoverKey(fileBaseName, meta, FormatDate.FormattedDate(c.date), c.dimensions.value, imageExt);
          var cover := StoredObject(picture.data, imageMimeType, Disposition(key));
          assert CoverFor(f, c) == Cover(key, cover);
          coverImageKey := Some(key);
          PutObject(key, cover);
        }
      }
      failed := false;
    }

    /** The `map` callback for one file (lines 21-98). */
    method UploadFile(f: UploadedFile, c: Collaborators, baseUrl: string) returns (result: Option<StoredRecord>)
      modifies this
      ensures result.None? ==> State() == old(State()) && UploadOne(old(State()), f, c, baseUrl).None?
      ensures result.Some? ==> UploadOne(old(State()), f, c, baseUrl) == Some((State(), result.value))
    {
      var fileName := DisplayName(f.originalName);
      var fileKey := StorageKey(f.originalName);
      UploadOneSteps(State(), f, c, baseUrl);
      var failed, coverImageKey := StoreCover(f, c);
      if failed {
        return None;
      }
      ghost var afterCover := State();
      PutObject(fileKey, StoredObject(f.buffer, f.mimeType, Disposition(fileKey)));
      ghost var afterPut := State();
      var newFile := FileRecord(fileName, ViewUrl(baseUrl, fileKey), DownloadUrl(baseUrl, fileKey),
                                CoverImageUrl(baseUrl, coverImageKey), fileKey);
      var stored := CreateRecord(newFile);
      result := Some(stored);
      CommitSteps(afterCover, f, coverImageKey, baseUrl, afterPut, State(), stored);
    }

    /** `uploadFiles` (lines 15-107), the files taken one after another. */
    method UploadFiles(files: Option<seq<UploadedFile>>, cs: seq<Collaborators>, baseUrl: string) returns (response: UploadResponse)
      requires files.Some? ==> |files.value| == |cs|
      modifies this
      ensures (State(), response) == UploadRequest(old(State()), files, cs, baseUrl)
    {
      if files.None? || files.value == [] {
        return NoFilesUploaded;
      }
      var fs := files.value;
      var uploaded: seq<StoredRecord> := [];
      var i := 0;
      while i < |fs|
        invariant 0 <= i <= |fs|
        invariant UploadAll(old(State()), fs[..i], cs[..i], baseUrl) == (State(), Some(uploaded))
      {
        PrefixSnoc(fs, i);
        PrefixSnoc(cs, i);
        ghost var before := State();
        var result := UploadFile(fs[i], cs[i], baseUrl);
        if result.None? {
          UploadAllStop(old(State()), fs[..i], cs[..i], fs[i], cs[i], baseUrl, before, uploaded);
          UploadAllFailureSticks(old(State()), fs, cs, baseUrl, i + 1, |fs|);
          assert fs[..|fs|] == fs && cs[..|fs|] == cs;
          return UploadFailed;
        }
        UploadAllExtend(old(State()), fs[..i], cs[..i], fs[i], cs[i], baseUrl, before, uploaded, State(), result.value);
        uploaded := uploaded + [result.value];
        i := i + 1;
      }
      assert fs[..|fs|] == fs && cs[..|fs|] == cs;
      response := FilesUploaded(uploaded);
    }

    /** `deleteUploadedFile` (lines 166-197). */
    method DeleteUploadedFile(id: nat) returns (response: DeleteResponse)
      modifies this
      ensures (State(), response) == DeleteRequest(old(State()), id)
    {
      if id !in records {
        return FileNotFound;
      }
      var file := records[id];
      DeleteObject(file.key);
      if file.coverImageUrl.Some? && file.coverImageUrl.value != [] {
        var coverImageKey := KeyFromUrl(file.coverImageUrl.value);
        DeleteObject(coverImageKey);
      }
      DeleteRecord(id);
      response := FileDeleted;
    }
  }
}
