/** The persisted entities (File, ShareLink, AccessLog, User, Package), the abstract
    password hasher and object store, and the relational store as a class whose fields
    are the tables. The store's constraints (unique columns and foreign keys) are the
    class invariant `Valid()`; the cascading delete from a file to its links and their
    logs is the method `Database.DeleteFileCascade`. */
module Schema {
  import opened Common
  import opened Tables

  // ---------------------------------------------------------------------------
  // Rows
  // ---------------------------------------------------------------------------

  /** A file record. `size` is a BigInt column, so it is unbounded here. */
  datatype FileRecord = FileRecord(
    id: string,
    originalName: string,
    mimeType: string,
    size: nat,
    s3Key: string,
    uploaderId: Option<string>,
    packageId: Option<string>,
    createdAt: nat)

  /** The output of the password hasher; kept apart from plain strings so that a
      plaintext password can never be stored where a hash belongs. */
  datatype PasswordHash = PasswordHash(digest: string)

  datatype ShareLink = ShareLink(
    id: string,
    token: string,
    fileId: string,
    password: Option<PasswordHash>,
    expireAt: Option<nat>,
    downloadLimit: Option<nat>,
    currentDownloadCount: nat,
    isActive: bool,
    createdAt: nat)

  /** The `AccessAction` enum: VIEW | DOWNLOAD. */
  datatype AccessAction = View | Download

  datatype AccessLog = AccessLog(
    id: string,
    linkId: string,
    action: AccessAction,
    ip: Option<string>,
    userAgent: Option<string>,
    createdAt: nat)

  /** The user role enum: USER (the column default) | ADMIN. */
  datatype Role = RegularUser | AdminRole

  datatype User = User(id: string, email: string, password: PasswordHash, role: Role, createdAt: nat)

  datatype Package = Package(id: string, name: string, description: Option<string>, createdAt: nat)

  // ---------------------------------------------------------------------------
  // The password hasher (bcrypt), as an uninterpreted pair of functions
  // ---------------------------------------------------------------------------

  /** The work factor passed to every `bcrypt.hash` call. */
  const BcryptRounds: nat := 10

  datatype Hasher = Hasher(hash: (string, nat) -> PasswordHash, compare: (string, PasswordHash) -> bool)

  /** The one property of bcrypt the services rely on: a password matches its own hash. */
  ghost predicate AcceptsOwnHashes(h: Hasher) {
    forall p: string :: h.compare(p, h.hash(p, BcryptRounds))
  }

  /** bcrypt never yields the empty string, so a stored hash is always truthy. */
  ghost predicate HashesNonEmpty(h: Hasher) {
    forall p: string :: h.hash(p, BcryptRounds).digest != ""
  }

  // ---------------------------------------------------------------------------
  // The object store (S3), as uninterpreted functions
  // ---------------------------------------------------------------------------

  /** One uploaded part of a multipart upload, as the client reports it. */
  datatype Part = Part(eTag: string, partNumber: nat)

  /** The object-store adapter. A call that can fail returns `Some(message)` with the
      error it raises, `None` when it succeeds; `initiate` returns the upload session id,
      which may be missing. Signing a URL is computed locally and does not fail. */
  datatype ObjectStore = ObjectStore(
    initiate: (string, string) -> Option<string>,       // (key, contentType)
    signPart: (string, string, nat) -> string,          // (key, uploadId, partNumber)
    complete: (string, string, seq<Part>) -> Option<string>,
    abort: (string, string) -> Option<string>,
    signDownload: string -> string,
    deleteObject: string -> Option<string>)

  // ---------------------------------------------------------------------------
  // Columns
  // ---------------------------------------------------------------------------

  function FileId(f: FileRecord): string { f.id }
  function FileCreatedAt(f: FileRecord): nat { f.createdAt }
  function LinkId(l: ShareLink): string { l.id }
  function LinkToken(l: ShareLink): string { l.token }
  function LogId(g: AccessLog): string { g.id }
  function LogCreatedAt(g: AccessLog): nat { g.createdAt }
  function UserId(u: User): string { u.id }
  function UserEmail(u: User): string { u.email }
  function PackageId(p: Package): string { p.id }

  // ---------------------------------------------------------------------------
  // Integrity constraints
  // ---------------------------------------------------------------------------

  ghost predicate LinksReferToFiles(links: seq<ShareLink>, files: seq<FileRecord>) {
    forall l | l in links :: l.fileId in Keys(files, FileId)
  }

  ghost predicate LogsReferToLinks(logs: seq<AccessLog>, links: seq<ShareLink>) {
    forall g | g in logs :: g.linkId in Keys(links, LinkId)
  }

  ghost predicate FilesReferToPackages(files: seq<FileRecord>, packages: seq<Package>) {
    forall f | f in files && f.packageId.Some? :: f.packageId.value in Keys(packages, PackageId)
  }

  /** Unique ids in every table, unique link tokens and user emails, and the three
      foreign keys ShareLink.fileId, AccessLog.linkId and File.packageId. */
  ghost predicate TablesValid(
    files: seq<FileRecord>, links: seq<ShareLink>, logs: seq<AccessLog>,
    users: seq<User>, packages: seq<Package>)
  {
    && Distinct(files, FileId)
    && Distinct(links, LinkId) && Distinct(links, LinkToken)
    && Distinct(logs, LogId)
    && Distinct(users, UserId) && Distinct(users, UserEmail)
    && Distinct(packages, PackageId)
    && LinksReferToFiles(links, files)
    && LogsReferToLinks(logs, links)
    && FilesReferToPackages(files, packages)
  }

  /** Rewriting link rows without touching their id, token or file keeps the tables valid. */
  lemma LinkRowsRewritten(
    files: seq<FileRecord>, links: seq<ShareLink>, links': seq<ShareLink>,
    logs: seq<AccessLog>, users: seq<User>, packages: seq<Package>)
    requires TablesValid(files, links, logs, users, packages)
    requires |links'| == |links|
    requires forall i :: 0 <= i < |links| ==>
      links'[i].id == links[i].id && links'[i].token == links[i].token && links'[i].fileId == links[i].fileId
    ensures TablesValid(files, links', logs, users, packages)
  {
    DistinctSameKeys(links, links', LinkId);
    DistinctSameKeys(links, links', LinkToken);
    forall l | l in links' ensures l.fileId in Keys(files, FileId) {
      var i :| 0 <= i < |links'| && links'[i] == l;
      assert links[i] in links;
    }
  }

  /** Rewriting file rows without touching their id keeps the tables valid, provided the
      package references are still valid. */
  lemma FileRowsRewritten(
    files: seq<FileRecord>, files': seq<FileRecord>, links: seq<ShareLink>,
    logs: seq<AccessLog>, users: seq<User>, packages: seq<Package>)
    requires TablesValid(files, links, logs, users, packages)
    requires |files'| == |files|
    requires forall i :: 0 <= i < |files| ==> files'[i].id == files[i].id
    requires FilesReferToPackages(files', packages)
    ensures TablesValid(files', links, logs, users, packages)
  {
    DistinctSameKeys(files, files', FileId);
  }

  // ---------------------------------------------------------------------------
  // Bulk row updates of the store (`update`/`updateMany` by a column)
  // ---------------------------------------------------------------------------

  /** `shareLink.update({ where: { id }, data: { isActive: false } })`. */
  function MarkInactive(links: seq<ShareLink>, id: string): (r: seq<ShareLink>)
    ensures |r| == |links|
    ensures forall i :: 0 <= i < |r| ==> r[i].(isActive := links[i].isActive) == links[i]
    ensures forall i :: 0 <= i < |r| ==> r[i].isActive == (links[i].isActive && links[i].id != id)
  {
    seq(|links|, i requires 0 <= i < |links| =>
      if links[i].id == id then links[i].(isActive := false) else links[i])
  }

  /** `shareLink.update({ where: { id }, data: { currentDownloadCount: { increment: 1 } } })`. */
  function IncrementCount(links: seq<ShareLink>, id: string): (r: seq<ShareLink>)
    ensures |r| == |links|
    ensures forall i :: 0 <= i < |r| ==>
      r[i].(currentDownloadCount := links[i].currentDownloadCount) == links[i]
    ensures forall i :: 0 <= i < |r| ==>
      r[i].currentDownloadCount == links[i].currentDownloadCount + (if links[i].id == id then 1 else 0)
  {
    seq(|links|, i requires 0 <= i < |links| =>
      if links[i].id == id
      then links[i].(currentDownloadCount := links[i].currentDownloadCount + 1)
      else links[i])
  }

  /** `file.update({ where: { id }, data: { packageId } })`. */
  function SetPackage(files: seq<FileRecord>, id: string, packageId: Option<string>): (r: seq<FileRecord>)
    ensures |r| == |files|
    ensures forall i :: 0 <= i < |r| ==> r[i].(packageId := files[i].packageId) == files[i]
    ensures forall i :: 0 <= i < |r| ==>
      r[i].packageId == (if files[i].id == id then packageId else files[i].packageId)
  {
    seq(|files|, i requires 0 <= i < |files| =>
      if files[i].id == id then files[i].(packageId := packageId) else files[i])
  }

  /** `file.updateMany({ where: { packageId }, data: { packageId: null } })`. */
  function ClearPackage(files: seq<FileRecord>, packageId: string): (r: seq<FileRecord>)
    ensures |r| == |files|
    ensures forall i :: 0 <= i < |r| ==> r[i].(packageId := files[i].packageId) == files[i]
    ensures forall i :: 0 <= i < |r| ==>
      r[i].packageId == (if files[i].packageId == Some(packageId) then None else files[i].packageId)
  {
    seq(|files|, i requires 0 <= i < |files| =>
      if files[i].packageId == Some(packageId) then files[i].(packageId := None) else files[i])
  }

  /** Under unique link ids, the increment touches exactly the one row with that id. */
  lemma IncrementCountAt(links: seq<ShareLink>, i: nat)
    requires Distinct(links, LinkId) && i < |links|
    ensures IncrementCount(links, links[i].id)
         == links[i := links[i].(currentDownloadCount := links[i].currentDownloadCount + 1)]
  {
    var r := IncrementCount(links, links[i].id);
    forall j | 0 <= j < |links| && j != i ensures r[j] == links[j] {
      assert LinkId(links[j]) != LinkId(links[i]);
    }
  }

  /** Looking up a row that a foreign key guarantees. */
  function FileOf(files: seq<FileRecord>, id: string): (f: FileRecord)
    requires id in Keys(files, FileId)
    ensures f in files && f.id == id
  {
    files[IndexOf(files, FileId, id).value]
  }

  // ---------------------------------------------------------------------------
  // Deleting a file, with the cascade to its links and their logs
  // ---------------------------------------------------------------------------

  function FilesExcept(files: seq<FileRecord>, id: string): (r: seq<FileRecord>)
    ensures forall f | f in r :: f in files && f.id != id
    ensures forall f | f in files && f.id != id :: f in r
    ensures Distinct(files, FileId) ==> Distinct(r, FileId)
  {
    var keep := (f: FileRecord) => f.id != id;
    WhereDistinct(files, keep, FileId);
    Where(files, keep)
  }

  /** The ids of the links that belong to a file. */
  function LinkIdsOf(links: seq<ShareLink>, fileId: string): (ids: set<string>)
    ensures forall l | l in links :: l.id in ids <== l.fileId == fileId
    ensures forall k | k in ids :: exists l | l in links :: l.fileId == fileId && l.id == k
  {
    set l | l in links && l.fileId == fileId :: l.id
  }

  function LinksExcept(links: seq<ShareLink>, fileId: string): (r: seq<ShareLink>)
    ensures forall l | l in r :: l in links && l.fileId != fileId
    ensures forall l | l in links && l.fileId != fileId :: l in r
    ensures Distinct(links, LinkId) ==> Distinct(r, LinkId)
    ensures Distinct(links, LinkToken) ==> Distinct(r, LinkToken)
  {
    var keep := (l: ShareLink) => l.fileId != fileId;
    WhereDistinct(links, keep, LinkId);
    WhereDistinct(links, keep, LinkToken);
    Where(links, keep)
  }

  function LogsExcept(logs: seq<AccessLog>, linkIds: set<string>): (r: seq<AccessLog>)
    ensures forall g | g in r :: g in logs && g.linkId !in linkIds
    ensures forall g | g in logs && g.linkId !in linkIds :: g in r
    ensures Distinct(logs, LogId) ==> Distinct(r, LogId)
  {
    var keep := (g: AccessLog) => g.linkId !in linkIds;
    WhereDistinct(logs, keep, LogId);
    Where(logs, keep)
  }

  /** Under a unique id, deleting by id removes exactly one row when the id is present. */
  lemma {:induction false} FilesExceptRemovesOne(files: seq<FileRecord>, id: string)
    requires Distinct(files, FileId)
    ensures |FilesExcept(files, id)| == |files| - (if id in Keys(files, FileId) then 1 else 0)
  {
    if files != [] {
      var rest := files[1..];
      DistinctTail(files, FileId);
      FilesExceptRemovesOne(rest, id);
      assert forall f | f in files :: f == files[0] || f in rest;
      if files[0].id == id {
        assert forall f | f in rest :: FileId(f) != FileId(files[0]);
      } else {
        assert forall f | f in rest :: f in files;
      }
    }
  }

  /** The relational store: one field per table. */
  class Database {
    var files: seq<FileRecord>
    var links: seq<ShareLink>
    var logs: seq<AccessLog>
    var users: seq<User>
    var packages: seq<Package>

    ghost predicate Valid()
      reads this
    {
      TablesValid(files, links, logs, users, packages)
    }

    constructor ()
      ensures Valid()
      ensures files == [] && links == [] && logs == [] && users == [] && packages == []
    {
      files, links, logs, users, packages := [], [], [], [], [];
    }

    /** `file.delete({ where: { id } })`: the file goes, and with it (ON DELETE CASCADE)
        every link to it and every log of those links. */
    method DeleteFileCascade(id: string)
      requires Valid()
      modifies this
      ensures Valid()
      ensures files == FilesExcept(old(files), id)
      ensures links == LinksExcept(old(links), id)
      ensures logs == LogsExcept(old(logs), LinkIdsOf(old(links), id))
      ensures users == old(users) && packages == old(packages)
    {
      var removed := LinkIdsOf(links, id);
      ghost var links0 := links;
      files := FilesExcept(files, id);
      links := LinksExcept(links, id);
      logs := LogsExcept(logs, removed);
      forall l | l in links ensures l.fileId in Keys(files, FileId) {
        var f :| f in old(files) && f.id == l.fileId;
        assert f in files;
      }
      forall g | g in logs ensures g.linkId in Keys(links, LinkId) {
        var l :| l in links0 && l.id == g.linkId;
        assert l.fileId != id;
        assert l in links;
      }
    }
  }
}
