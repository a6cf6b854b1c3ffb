/** The upload orchestrator (file.service.ts): a client opens a multipart upload, gets one
    signed URL per part, and later completes or aborts it; a stored file can be looked up
    and deleted. */
module Files {
  import opened Common
  import opened Tables
  import opened Schema

  const InitiateFailed := Error(Internal, "Failed to initiate multipart upload")

  /** The default part size, 5 MiB. */
  const PartSize: nat := 5 * 1024 * 1024

  /** A version-4 uuid is 36 characters long. */
  const UuidLength: nat := 36

  // ---------------------------------------------------------------------------
  // Keys and part counts
  // ---------------------------------------------------------------------------

  /** `uploads/${uuid}/${fileName}`. */
  function StorageKey(uuid: string, fileName: string): (key: string)
    ensures |key| == |"uploads/"| + |uuid| + 1 + |fileName|
    ensures key[..|"uploads/"|] == "uploads/"
    ensures key[|key| - |fileName|..] == fileName
  {
    var key := "uploads/" + uuid + "/" + fileName;
    assert key[|key| - |fileName|..] == fileName;
    key
  }

  /** Distinct uuids give distinct keys, whatever the file names: uploads of files with the
      same name never collide. */
  lemma StorageKeyInjective(u1: string, n1: string, u2: string, n2: string)
    requires |u1| == UuidLength && |u2| == UuidLength
    requires StorageKey(u1, n1) == StorageKey(u2, n2)
    ensures u1 == u2 && n1 == n2
  {
    var k := StorageKey(u1, n1);
    assert ("uploads/" + u1 + "/" + n1)[8..44] == u1;
    assert ("uploads/" + u2 + "/" + n2)[8..44] == u2;
    assert ("uploads/" + u1 + "/" + n1)[45..] == n1;
    assert ("uploads/" + u2 + "/" + n2)[45..] == n2;
  }

  /** `dto.totalParts || Math.ceil(dto.fileSize / PartSize)`. */
  function PartCount(fileSize: nat, totalParts: Option<nat>): (n: nat)
    ensures TruthyNat(totalParts) ==> n == totalParts.value
    ensures !TruthyNat(totalParts) ==> n * PartSize >= fileSize && (n == 0 || (n - 1) * PartSize < fileSize)
  {
    if TruthyNat(totalParts) then totalParts.value else (fileSize + PartSize - 1) / PartSize
  }

  /** Without an explicit count the parts are the fewest that cover the file, and a file
      the validation accepts (at least one byte) gets at least one part. */
  lemma PartCountCovers(fileSize: nat, totalParts: Option<nat>)
    requires fileSize >= 1
    requires totalParts.None? || totalParts.value >= 1
    ensures PartCount(fileSize, totalParts) >= 1
    ensures totalParts.None? ==>
      forall m: nat | m * PartSize >= fileSize :: PartCount(fileSize, totalParts) <= m
  {
  }

  /** 12 MiB in 5 MiB parts is three parts. */
  lemma TwelveMebibytesIsThreeParts()
    ensures PartCount(12 * 1024 * 1024, None) == 3
  {
  }

  // ---------------------------------------------------------------------------
  // Signing the parts
  // ---------------------------------------------------------------------------

  datatype PartUrl = PartUrl(partNumber: nat, url: string)

  /** The `for (let i = 1; i <= totalParts; i++)` loop: one signed URL per part, part
      numbers 1..n in ascending order. */
  method PresignParts(store: ObjectStore, key: string, uploadId: string, n: nat)
    returns (urls: seq<PartUrl>)
    ensures |urls| == n
    ensures forall i :: 0 <= i < n ==> urls[i] == PartUrl(i + 1, store.signPart(key, uploadId, i + 1))
    ensures forall i, j :: 0 <= i < j < n ==> urls[i].partNumber < urls[j].partNumber
  {
    urls := [];
    var i := 1;
    while i <= n
      invariant 1 <= i <= n + 1
      invariant |urls| == i - 1
      invariant forall j :: 0 <= j < i - 1 ==> urls[j] == PartUrl(j + 1, store.signPart(key, uploadId, j + 1))
    {
      var url := store.signPart(key, uploadId, i);
      urls := urls + [PartUrl(i, url)];
      i := i + 1;
    }
  }

  // ---------------------------------------------------------------------------
  // The operations
  // ---------------------------------------------------------------------------

  /** What `initUpload` returns. */
  datatype UploadSession = UploadSession(fileId: string, uploadId: string, s3Key: string, uploadUrls: seq<PartUrl>)

  /** The file row `initUpload` creates. */
  function NewFile(
    id: string, fileName: string, mimeType: string, fileSize: nat, uuid: string,
    uploaderId: Option<string>, now: nat)
    : (f: FileRecord)
    ensures f.id == id && f.originalName == fileName && f.mimeType == mimeType && f.size == fileSize
    ensures f.s3Key == StorageKey(uuid, fileName) && f.uploaderId == uploaderId
    ensures f.packageId.None? && f.createdAt == now
  {
    FileRecord(id, fileName, mimeType, fileSize, StorageKey(uuid, fileName), uploaderId, None, now)
  }

  /** `initUpload(dto, uploaderId)`. The record is inserted before the object store is
      asked for a session, so it stays when that fails. */
  method InitUpload(
    db: Database, fileName: string, mimeType: string, fileSize: nat, totalParts: Option<nat>,
    uploaderId: Option<string>, uuid: string, id: string, now: nat, store: ObjectStore)
    returns (r: Result<UploadSession>)
    requires db.Valid()
    requires id !in Keys(db.files, FileId)
    modifies db
    ensures db.Valid()
    ensures db.files == old(db.files) + [NewFile(id, fileName, mimeType, fileSize, uuid, uploaderId, now)]
    ensures db.links == old(db.links) && db.logs == old(db.logs)
    ensures db.users == old(db.users) && db.packages == old(db.packages)
    ensures var key := StorageKey(uuid, fileName);
      var uploadId := store.initiate(key, mimeType);
      && (!Truthy(uploadId) ==> r == Err(InitiateFailed))
      && (Truthy(uploadId) ==>
            && r.Ok?
            && r.value.fileId == id && r.value.uploadId == uploadId.value && r.value.s3Key == key
            && |r.value.uploadUrls| == PartCount(fileSize, totalParts)
            && forall i :: 0 <= i < |r.value.uploadUrls| ==>
                 r.value.uploadUrls[i] == PartUrl(i + 1, store.signPart(key, uploadId.value, i + 1)))
  {
    var key := StorageKey(uuid, fileName);
    var f := NewFile(id, fileName, mimeType, fileSize, uuid, uploaderId, now);
    DistinctAppend(db.files, f, FileId);
    KeysAppend(db.files, f, FileId);
    db.files := db.files + [f];
    var uploadId := store.initiate(key, mimeType);
    if !Truthy(uploadId) {
      return Err(InitiateFailed);
    }
    var n := PartCount(fileSize, totalParts);
    var urls := PresignParts(store, key, uploadId.value, n);
    r := Ok(UploadSession(id, uploadId.value, key, urls));
  }

  /** `findById(id)`. */
  function FindById(files: seq<FileRecord>, id: string): (r: Result<FileRecord>)
    ensures r.Ok? <==> id in Keys(files, FileId)
    ensures r.Ok? ==> r.value in files && r.value.id == id
    ensures r.Err? ==> r.error == FileNotFound
  {
    match IndexOf(files, FileId, id)
    case None => Err(FileNotFound)
    case Some(i) => Ok(files[i])
  }

  /** What `completeUpload` returns. */
  datatype Completed = Completed(success: bool, fileId: string, fileName: string)

  /** `completeUpload(dto)`: asks the object store to assemble the parts; it reads the
      file table and never writes it. */
  function CompleteUpload(
    files: seq<FileRecord>, fileId: string, uploadId: string, parts: seq<Part>, store: ObjectStore)
    : (r: Result<Completed>)
    ensures fileId !in Keys(files, FileId) ==> r == Err(FileNotFound)
    ensures fileId in Keys(files, FileId) ==>
      var f := FindById(files, fileId).value;
      match store.complete(f.s3Key, uploadId, parts)
      case Some(m) => r == Err(Error(Upstream, m))
      case None => r == Ok(Completed(true, fileId, f.originalName))
  {
    match FindById(files, fileId)
    case Err(e) => Err(e)
    case Ok(f) =>
      match store.complete(f.s3Key, uploadId, parts)
      case Some(m) => Err(Error(Upstream, m))
      case None => Ok(Completed(true, f.id, f.originalName))
  }

  /** `abortUpload(dto)`: the object store drops the parts, then the record goes (with its
      links and their logs). */
  method AbortUpload(db: Database, fileId: string, uploadId: string, store: ObjectStore)
    returns (r: Result<bool>)
    requires db.Valid()
    modifies db
    ensures db.Valid()
    ensures db.users == old(db.users) && db.packages == old(db.packages)
    ensures fileId !in Keys(old(db.files), FileId) ==> r == Err(FileNotFound) && unchanged(db)
    ensures fileId in Keys(old(db.files), FileId) ==>
      var f := FindById(old(db.files), fileId).value;
      match store.abort(f.s3Key, uploadId)
      case Some(m) => r == Err(Error(Upstream, m)) && unchanged(db)
      case None =>
        && r == Ok(true)
        && db.files == FilesExcept(old(db.files), fileId)
        && |db.files| == |old(db.files)| - 1
        && db.links == LinksExcept(old(db.links), fileId)
        && db.logs == LogsExcept(old(db.logs), LinkIdsOf(old(db.links), fileId))
  {
    var found := FindById(db.files, fileId);
    if found.Err? {
      return Err(found.error);
    }
    var failure := store.abort(found.value.s3Key, uploadId);
    if failure.Some? {
      return Err(Error(Upstream, failure.value));
    }
    FilesExceptRemovesOne(db.files, fileId);
    db.DeleteFileCascade(fileId);
    r := Ok(true);
  }

  /** `delete(id)`: the object is removed from the store, then the record. */
  method Delete(db: Database, id: string, store: ObjectStore) returns (r: Result<bool>)
    requires db.Valid()
    modifies db
    ensures db.Valid()
    ensures db.users == old(db.users) && db.packages == old(db.packages)
    ensures id !in Keys(old(db.files), FileId) ==> r == Err(FileNotFound) && unchanged(db)
    ensures id in Keys(old(db.files), FileId) ==>
      var f := FindById(old(db.files), id).value;
      match store.deleteObject(f.s3Key)
      case Some(m) => r == Err(Error(Upstream, m)) && unchanged(db)
      case None =>
        && r == Ok(true)
        && db.files == FilesExcept(old(db.files), id)
        && |db.files| == |old(db.files)| - 1
        && db.links == LinksExcept(old(db.links), id)
        && db.logs == LogsExcept(old(db.logs), LinkIdsOf(old(db.links), id))
  {
    var found := FindById(db.files, id);
    if found.Err? {
      return Err(found.error);
    }
    var failure := store.deleteObject(found.value.s3Key);
    if failure.Some? {
      return Err(Error(Upstream, failure.value));
    }
    FilesExceptRemovesOne(db.files, id);
    db.DeleteFileCascade(id);
    r := Ok(true);
  }
}
