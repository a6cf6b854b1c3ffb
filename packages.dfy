/** Packages (package.service.ts): named groups of files. A file belongs to at most one
    package through its `packageId` column. */
module Packages {
  import opened Common
  import opened Tables
  import opened Schema

  /** What the store raises for an update or delete of a missing row, and for a
      `packageId` that names no package. */
  const UpdateMissing := Error(StoreError, "Record to update not found.")
  const DeleteMissing := Error(StoreError, "Record to delete does not exist.")
  const UnknownPackage := Error(StoreError, "Foreign key constraint failed on the field: packageId")

  /** `create({ name, description })`. */
  method Create(db: Database, name: string, description: Option<string>, id: string, now: nat)
    returns (p: Package)
    requires db.Valid()
    requires id !in Keys(db.packages, PackageId)
    modifies db
    ensures db.Valid()
    ensures p == Package(id, name, description, now)
    ensures db.packages == old(db.packages) + [p]
    ensures db.files == old(db.files) && db.links == old(db.links)
    ensures db.logs == old(db.logs) && db.users == old(db.users)
  {
    p := Package(id, name, description, now);
    DistinctAppend(db.packages, p, PackageId);
    db.packages := db.packages + [p];
  }

  /** The row of `files` with the given id after the update. */
  function Updated(files: seq<FileRecord>, fileId: string, packageId: Option<string>): (f: FileRecord)
    requires fileId in Keys(files, FileId)
    ensures f.id == fileId && f.packageId == packageId
    ensures exists g | g in files :: g.id == fileId && f == g.(packageId := packageId)
  {
    FileOf(files, fileId).(packageId := packageId)
  }

  /** `addFile(packageId, fileId)`: moves that one file into the package. */
  method AddFile(db: Database, packageId: string, fileId: string) returns (r: Result<FileRecord>)
    requires db.Valid()
    modifies db
    ensures db.Valid()
    ensures db.links == old(db.links) && db.logs == old(db.logs)
    ensures db.users == old(db.users) && db.packages == old(db.packages)
    ensures fileId !in Keys(old(db.files), FileId) ==> r == Err(UpdateMissing) && db.files == old(db.files)
    ensures fileId in Keys(old(db.files), FileId) && packageId !in Keys(old(db.packages), PackageId) ==>
      r == Err(UnknownPackage) && db.files == old(db.files)
    ensures fileId in Keys(old(db.files), FileId) && packageId in Keys(old(db.packages), PackageId) ==>
      && db.files == SetPackage(old(db.files), fileId, Some(packageId))
      && r == Ok(Updated(old(db.files), fileId, Some(packageId)))
  {
    if IndexOf(db.files, FileId, fileId).None? {
      return Err(UpdateMissing);
    }
    if IndexOf(db.packages, PackageId, packageId).None? {
      return Err(UnknownPackage);
    }
    var files' := SetPackage(db.files, fileId, Some(packageId));
    forall f | f in files' && f.packageId.Some? ensures f.packageId.value in Keys(db.packages, PackageId) {
      var i :| 0 <= i < |files'| && files'[i] == f;
      assert db.files[i] in db.files;
    }
    FileRowsRewritten(db.files, files', db.links, db.logs, db.users, db.packages);
    r := Ok(Updated(db.files, fileId, Some(packageId)));
    db.files := files';
  }

  /** `removeFile(fileId)`: takes that one file out of its package. */
  method RemoveFile(db: Database, fileId: string) returns (r: Result<FileRecord>)
    requires db.Valid()
    modifies db
    ensures db.Valid()
    ensures db.links == old(db.links) && db.logs == old(db.logs)
    ensures db.users == old(db.users) && db.packages == old(db.packages)
    ensures fileId !in Keys(old(db.files), FileId) ==> r == Err(UpdateMissing) && db.files == old(db.files)
    ensures fileId in Keys(old(db.files), FileId) ==>
      db.files == SetPackage(old(db.files), fileId, None) && r == Ok(Updated(old(db.files), fileId, None))
  {
    if IndexOf(db.files, FileId, fileId).None? {
      return Err(UpdateMissing);
    }
    var files' := SetPackage(db.files, fileId, None);
    forall f | f in files' && f.packageId.Some? ensures f.packageId.value in Keys(db.packages, PackageId) {
      var i :| 0 <= i < |files'| && files'[i] == f;
      assert db.files[i] in db.files;
    }
    FileRowsRewritten(db.files, files', db.links, db.logs, db.users, db.packages);
    r := Ok(Updated(db.files, fileId, None));
    db.files := files';
  }

  function PackagesExcept(packages: seq<Package>, id: string): (r: seq<Package>)
    ensures forall p | p in r :: p in packages && p.id != id
    ensures forall p | p in packages && p.id != id :: p in r
    ensures Distinct(packages, PackageId) ==> Distinct(r, PackageId)
  {
    var keep := (p: Package) => p.id != id;
    WhereDistinct(packages, keep, PackageId);
    Where(packages, keep)
  }

  /** `delete(id)`: first every member file is unlinked, then the package row goes. */
  method Delete(db: Database, id: string) returns (r: Result<Package>)
    requires db.Valid()
    modifies db
    ensures db.Valid()
    ensures db.links == old(db.links) && db.logs == old(db.logs) && db.users == old(db.users)
    ensures db.files == ClearPackage(old(db.files), id)
    ensures id !in Keys(old(db.packages), PackageId) ==> r == Err(DeleteMissing) && db.packages == old(db.packages)
    ensures id in Keys(old(db.packages), PackageId) ==>
      && db.packages == PackagesExcept(old(db.packages), id)
      && r.Ok? && r.value in old(db.packages) && r.value.id == id
  {
    var files' := ClearPackage(db.files, id);
    forall f | f in files' && f.packageId.Some?
      ensures f.packageId.value in Keys(db.packages, PackageId) && f.packageId.value != id
    {
      var i :| 0 <= i < |files'| && files'[i] == f;
      assert db.files[i] in db.files;
    }
    FileRowsRewritten(db.files, files', db.links, db.logs, db.users, db.packages);
    db.files := files';
    var found := IndexOf(db.packages, PackageId, id);
    if found.None? {
      return Err(DeleteMissing);
    }
    var p := db.packages[found.value];
    var packages' := PackagesExcept(db.packages, id);
    forall f | f in db.files && f.packageId.Some? ensures f.packageId.value in Keys(packages', PackageId) {
      var q :| q in db.packages && q.id == f.packageId.value;
      assert q in packages';
    }
    db.packages := packages';
    r := Ok(p);
  }

  /** After `delete(id)` no file is in the package any more, files of other packages keep
      their package, and only the package's members change. */
  lemma DeleteUnlinksMembers(files: seq<FileRecord>, id: string, i: nat)
    requires i < |files|
    ensures ClearPackage(files, id)[i].packageId != Some(id)
    ensures files[i].packageId != Some(id) ==> ClearPackage(files, id)[i] == files[i]
    ensures files[i].packageId == Some(id) ==> ClearPackage(files, id)[i] == files[i].(packageId := None)
  {
    var c := ClearPackage(files, id);
    assert c[i].(packageId := files[i].packageId) == files[i];
  }
}
