/** The administrator's views (admin.service.ts): a searchable, paginated list of files
    with per-file link aggregates, deleting a file, global statistics, and a filtered,
    paginated list of access-log entries joined with their link and file. */
module Admin {
  import opened Common
  import opened Text
  import opened Tables
  import opened Schema
  import Files

  /** The page sizes when the caller gives none. */
  const DefaultFilesTake: nat := 20
  const DefaultLogsTake: nat := 50

  // ---------------------------------------------------------------------------
  // getFiles
  // ---------------------------------------------------------------------------

  /** The `where` of `getFiles`: a truthy `search` must occur in the name, ignoring case. */
  predicate FileMatches(f: FileRecord, search: Option<string>) {
    !Truthy(search) || ContainsIgnoreCase(f.originalName, search.value)
  }

  function MatchingFiles(files: seq<FileRecord>, search: Option<string>): (r: seq<FileRecord>)
    ensures forall f | f in r :: f in files && FileMatches(f, search)
    ensures forall f | f in files && FileMatches(f, search) :: f in r
  {
    Where(files, (f: FileRecord) => FileMatches(f, search))
  }

  /** `include: { shareLinks }`: the links of one file, in table order. */
  function LinksOf(links: seq<ShareLink>, fileId: string): (r: seq<ShareLink>)
    ensures forall l | l in r :: l in links && l.fileId == fileId
    ensures forall l | l in links && l.fileId == fileId :: l in r
  {
    Where(links, (l: ShareLink) => l.fileId == fileId)
  }

  /** `reduce((sum, link) => sum + link.currentDownloadCount, 0)`. */
  function SumDownloads(links: seq<ShareLink>): nat {
    if links == [] then 0 else links[0].currentDownloadCount + SumDownloads(links[1..])
  }

  datatype UserRef = UserRef(id: string, email: string)

  /** `include: { uploader: { select: { id, email } } }`. */
  function UploaderOf(users: seq<User>, uploaderId: Option<string>): (r: Option<UserRef>)
    ensures r.Some? <==> uploaderId.Some? && uploaderId.value in Keys(users, UserId)
    ensures r.Some? ==> r.value.id == uploaderId.value
  {
    if uploaderId.None? then None
    else
      match IndexOf(users, UserId, uploaderId.value)
      case None => None
      case Some(i) => Some(UserRef(users[i].id, users[i].email))
  }

  /** One element of `data` in the answer of `getFiles`. */
  datatype FileRow = FileRow(
    id: string, originalName: string, mimeType: string, size: string, s3Key: string,
    createdAt: nat, uploader: Option<UserRef>, shareLinksCount: nat, totalDownloads: nat)

  function Summarize(f: FileRecord, links: seq<ShareLink>, users: seq<User>): (row: FileRow)
    ensures row.id == f.id && row.originalName == f.originalName && row.createdAt == f.createdAt
    ensures row.mimeType == f.mimeType && row.s3Key == f.s3Key && row.uploader == UploaderOf(users, f.uploaderId)
    ensures (forall i :: 0 <= i < |row.size| ==> IsDigit(row.size[i])) && ParseDecimal(row.size) == f.size
    ensures row.shareLinksCount == |LinksOf(links, f.id)|
    ensures row.totalDownloads == SumDownloads(LinksOf(links, f.id))
  {
    DecimalRoundTrip(f.size);
    var own := LinksOf(links, f.id);
    FileRow(f.id, f.originalName, f.mimeType, DecimalString(f.size), f.s3Key, f.createdAt,
            UploaderOf(users, f.uploaderId), |own|, SumDownloads(own))
  }

  datatype FilePage = FilePage(data: seq<FileRow>, meta: PageMeta)

  function FileRows(page: seq<FileRecord>, links: seq<ShareLink>, users: seq<User>): (rows: seq<FileRow>)
    ensures |rows| == |page|
    ensures forall i :: 0 <= i < |page| ==> rows[i] == Summarize(page[i], links, users)
  {
    seq(|page|, i requires 0 <= i < |page| => Summarize(page[i], links, users))
  }

  /** The rows of the window at `skip` of the matching files are summaries of matching
      files. */
  lemma FileRowsMatch(
    files: seq<FileRecord>, links: seq<ShareLink>, users: seq<User>,
    search: Option<string>, skip: nat, take: nat)
    ensures forall row | row in FileRows(NewestWindow(MatchingFiles(files, search), FileCreatedAt, skip, take), links, users) ::
      exists f | f in files :: FileMatches(f, search) && row == Summarize(f, links, users)
  {
    var page := NewestWindow(MatchingFiles(files, search), FileCreatedAt, skip, take);
    var rows := FileRows(page, links, users);
    forall row | row in rows ensures exists f | f in files :: FileMatches(f, search) && row == Summarize(f, links, users) {
      var i :| 0 <= i < |rows| && rows[i] == row;
      assert page[i] in page;
    }
  }

  /** The rows of the window keep the newest-first order. */
  lemma FileRowsOrdered(page: seq<FileRecord>, links: seq<ShareLink>, users: seq<User>)
    requires NewestFirst(page, FileCreatedAt)
    ensures var rows := FileRows(page, links, users);
      forall i, j :: 0 <= i < j < |rows| ==> rows[i].createdAt >= rows[j].createdAt
  {
    var rows := FileRows(page, links, users);
    forall i, j | 0 <= i < j < |rows| ensures rows[i].createdAt >= rows[j].createdAt {
      assert FileCreatedAt(page[i]) >= FileCreatedAt(page[j]);
    }
  }

  /** The rows of the window at `skip` of `s` ordered newest first are the window at
      `skip` of the summaries of all of `s` ordered newest first. */
  lemma FileRowsAt(s: seq<FileRecord>, links: seq<ShareLink>, users: seq<User>, skip: nat, take: nat)
    ensures WindowOf(FileRows(NewestWindow(s, FileCreatedAt, skip, take), links, users),
                     FileRows(SortNewestFirst(s, FileCreatedAt), links, users), skip)
  {
    var ordered := SortNewestFirst(s, FileCreatedAt);
    var all := FileRows(ordered, links, users);
    var page := NewestWindow(s, FileCreatedAt, skip, take);
    var rows := FileRows(page, links, users);
    forall i | 0 <= i < |rows| ensures skip + i < |all| && rows[i] == all[skip + i] {
      assert page[i] == ordered[skip + i];
    }
  }

  /** `getFiles({ skip, take, search })`. */
  function GetFiles(
    files: seq<FileRecord>, links: seq<ShareLink>, users: seq<User>,
    skip: Option<nat>, take: Option<nat>, search: Option<string>)
    : (r: FilePage)
    ensures r.meta.skip == skip.GetOr(0) && r.meta.take == take.GetOr(DefaultFilesTake)
    ensures r.meta.total == |MatchingFiles(files, search)|
    ensures |r.data| == if r.meta.skip >= r.meta.total then 0 else Min(r.meta.take, r.meta.total - r.meta.skip)
    ensures forall row | row in r.data :: exists f | f in files ::
      FileMatches(f, search) && row == Summarize(f, links, users)
    ensures forall i, j :: 0 <= i < j < |r.data| ==> r.data[i].createdAt >= r.data[j].createdAt
    ensures WindowOf(r.data, FileRows(SortNewestFirst(MatchingFiles(files, search), FileCreatedAt), links, users), r.meta.skip)
  {
    var s := skip.GetOr(0);
    var t := take.GetOr(DefaultFilesTake);
    var matching := MatchingFiles(files, search);
    FileRowsMatch(files, links, users, search, s, t);
    FileRowsOrdered(NewestWindow(matching, FileCreatedAt, s, t), links, users);
    FileRowsAt(matching, links, users, s, t);
    FilePage(FileRows(NewestWindow(matching, FileCreatedAt, s, t), links, users), PageMeta(|matching|, s, t))
  }

  /** Without a search every file is counted; a file always matches a search for its own
      name in another case. */
  lemma SearchExamples(files: seq<FileRecord>, f: FileRecord, search: string)
    requires Lower(f.originalName) == Lower(search)
    ensures FileMatches(f, Some(search))
    ensures MatchingFiles(files, None) == files
  {
    ContainsIgnoreCaseOfCaseVariant(f.originalName, search);
    WhereAll(files, None);
  }

  lemma {:induction false} WhereAll(files: seq<FileRecord>, search: Option<string>)
    requires !Truthy(search)
    ensures MatchingFiles(files, search) == files
  {
    if files != [] {
      WhereAll(files[1..], search);
    }
  }

  /** After a download through a link, that link's file reports one more download and
      every other file the same number, with the same number of links. */
  lemma {:induction false} DownloadRaisesTotal(links: seq<ShareLink>, i: nat, fileId: string)
    requires Distinct(links, LinkId) && i < |links|
    ensures var after := LinksOf(IncrementCount(links, links[i].id), fileId);
      && |after| == |LinksOf(links, fileId)|
      && SumDownloads(after) == SumDownloads(LinksOf(links, fileId)) + (if links[i].fileId == fileId then 1 else 0)
  {
    var links' := IncrementCount(links, links[i].id);
    IncrementCountAt(links, i);
    IncrementElsewhere(links, i, fileId);
    SumOfOwnLinks(links, fileId);
    SumOfOwnLinks(links', fileId);
    SameLinksOf(links, links', fileId);
  }

  /** The downloads through the links of one file, summed in one pass over the table. */
  function FileDownloads(links: seq<ShareLink>, fileId: string): nat {
    if links == [] then 0
    else (if links[0].fileId == fileId then links[0].currentDownloadCount else 0) + FileDownloads(links[1..], fileId)
  }

  /** Selecting the file's links and then summing them gives the one-pass sum. */
  lemma {:induction false} SumOfOwnLinks(links: seq<ShareLink>, fileId: string)
    ensures SumDownloads(LinksOf(links, fileId)) == FileDownloads(links, fileId)
  {
    if links != [] {
      var rest := LinksOf(links[1..], fileId);
      assert LinksOf(links, fileId) == (if links[0].fileId == fileId then [links[0]] else []) + rest;
      SumOfOwnLinks(links[1..], fileId);
      if links[0].fileId == fileId {
        var own := [links[0]] + rest;
        assert own[0] == links[0] && own[1..] == rest;
        assert SumDownloads(own) == links[0].currentDownloadCount + SumDownloads(rest);
      } else {
        assert [] + rest == rest;
      }
    }
  }

  lemma {:induction false} SameLinksOf(links: seq<ShareLink>, links': seq<ShareLink>, fileId: string)
    requires |links'| == |links|
    requires forall i :: 0 <= i < |links| ==> links'[i].fileId == links[i].fileId
    ensures |LinksOf(links', fileId)| == |LinksOf(links, fileId)|
  {
    if links != [] {
      assert LinksOf(links, fileId) == (if links[0].fileId == fileId then [links[0]] else []) + LinksOf(links[1..], fileId);
      assert LinksOf(links', fileId) == (if links'[0].fileId == fileId then [links'[0]] else []) + LinksOf(links'[1..], fileId);
      SameLinksOf(links[1..], links'[1..], fileId);
    }
  }

  lemma {:induction false} IncrementElsewhere(links: seq<ShareLink>, i: nat, fileId: string)
    requires i < |links|
    ensures var links' := links[i := links[i].(currentDownloadCount := links[i].currentDownloadCount + 1)];
      FileDownloads(links', fileId) == FileDownloads(links, fileId) + (if links[i].fileId == fileId then 1 else 0)
  {
    var links' := links[i := links[i].(currentDownloadCount := links[i].currentDownloadCount + 1)];
    if i == 0 {
      assert links'[1..] == links[1..];
    } else {
      assert links'[1..] == links[1..][i - 1 := links[i].(currentDownloadCount := links[i].currentDownloadCount + 1)];
      IncrementElsewhere(links[1..], i - 1, fileId);
    }
  }

  // ---------------------------------------------------------------------------
  // deleteFile
  // ---------------------------------------------------------------------------

  /** `deleteFile(id)`: the same steps as deleting through the file service — the object
      first, then the record with its links and their logs. */
  method DeleteFile(db: Database, id: string, store: ObjectStore) returns (r: Result<bool>)
    requires db.Valid()
    modifies db
    ensures db.Valid()
    ensures db.users == old(db.users) && db.packages == old(db.packages)
    ensures id !in Keys(old(db.files), FileId) ==> r == Err(FileNotFound) && unchanged(db)
    ensures id in Keys(old(db.files), FileId) ==>
      var f := Files.FindById(old(db.files), id).value;
      match store.deleteObject(f.s3Key)
      case Some(m) => r == Err(Error(Upstream, m)) && unchanged(db)
      case None =>
        && r == Ok(true)
        && db.files == FilesExcept(old(db.files), id)
        && db.links == LinksExcept(old(db.links), id)
        && db.logs == LogsExcept(old(db.logs), LinkIdsOf(old(db.links), id))
  {
    r := Files.Delete(db, id, store);
  }

  /** After the deletion nothing refers to the file any more: not a link, and no log
      entry of one of its links. */
  lemma DeleteLeavesNoTrace(links: seq<ShareLink>, logs: seq<AccessLog>, id: string)
    ensures forall l | l in LinksExcept(links, id) :: l.fileId != id
    ensures forall g | g in LogsExcept(logs, LinkIdsOf(links, id)) ::
      forall l | l in links && l.id == g.linkId :: l.fileId != id
  {
  }

  // ---------------------------------------------------------------------------
  // getStats
  // ---------------------------------------------------------------------------

  predicate IsDownload(g: AccessLog) {
    g.action == AccessAction.Download
  }

  /** `aggregate({ _sum: { size } })` over a non-empty table. */
  function SumSizes(files: seq<FileRecord>): nat {
    if files == [] then 0 else files[0].size + SumSizes(files[1..])
  }

  datatype Stats = Stats(totalFiles: nat, totalUsers: nat, totalDownloads: nat, totalStorage: string)

  /** `getStats()`. The sum over no rows is null, hence the fallback to "0". */
  function GetStats(files: seq<FileRecord>, users: seq<User>, logs: seq<AccessLog>): (r: Stats)
    ensures r.totalFiles == |files| && r.totalUsers == |users|
    ensures r.totalDownloads == Count(logs, IsDownload)
    ensures files == [] ==> r.totalStorage == "0"
    ensures (forall i :: 0 <= i < |r.totalStorage| ==> IsDigit(r.totalStorage[i]))
            && ParseDecimal(r.totalStorage) == SumSizes(files)
  {
    DecimalRoundTrip(SumSizes(files));
    var storage := if files == [] then "0" else DecimalString(SumSizes(files));
    Stats(|files|, |users|, Count(logs, IsDownload), storage)
  }

  /** The fallback agrees with rendering the sum: the storage figure is always the
      decimal rendering of the total size. */
  lemma StorageIsRenderedSum(files: seq<FileRecord>, users: seq<User>, logs: seq<AccessLog>)
    ensures GetStats(files, users, logs).totalStorage == DecimalString(SumSizes(files))
  {
  }

  /** A DOWNLOAD entry raises the download statistic by one, a VIEW entry leaves it. */
  lemma LoggedDownloadCounts(logs: seq<AccessLog>, g: AccessLog, files: seq<FileRecord>, users: seq<User>)
    ensures GetStats(files, users, logs + [g]).totalDownloads
         == GetStats(files, users, logs).totalDownloads + (if g.action == AccessAction.Download then 1 else 0)
  {
    CountAppend(logs, [g], IsDownload);
  }

  // ---------------------------------------------------------------------------
  // getLogs
  // ---------------------------------------------------------------------------

  /** The `where` that `getLogs` builds field by field; both date bounds are inclusive. */
  predicate LogMatches(g: AccessLog, action: Option<AccessAction>, startDate: Option<nat>, endDate: Option<nat>) {
    && (action.None? || g.action == action.value)
    && (startDate.None? || g.createdAt >= startDate.value)
    && (endDate.None? || g.createdAt <= endDate.value)
  }

  function MatchingLogs(
    logs: seq<AccessLog>, action: Option<AccessAction>, startDate: Option<nat>, endDate: Option<nat>)
    : (r: seq<AccessLog>)
    ensures forall g | g in r :: g in logs && LogMatches(g, action, startDate, endDate)
    ensures forall g | g in logs && LogMatches(g, action, startDate, endDate) :: g in r
  {
    Where(logs, (g: AccessLog) => LogMatches(g, action, startDate, endDate))
  }

  datatype FileRef = FileRef(id: string, name: string)

  /** One element of `data` in the answer of `getLogs`. */
  datatype LogRow = LogRow(
    id: string, action: AccessAction, ip: Option<string>, userAgent: Option<string>,
    createdAt: nat, file: FileRef, linkToken: string)

  /** The link of a log entry, which the foreign key guarantees. */
  function LinkOf(links: seq<ShareLink>, id: string): (l: ShareLink)
    requires id in Keys(links, LinkId)
    ensures l in links && l.id == id
  {
    links[IndexOf(links, LinkId, id).value]
  }

  /** `include: { link: { include: { file } } }`, then the mapping of one entry. */
  function LogRowOf(g: AccessLog, links: seq<ShareLink>, files: seq<FileRecord>): (row: LogRow)
    requires g.linkId in Keys(links, LinkId) && LinksReferToFiles(links, files)
    requires Distinct(links, LinkId) && Distinct(files, FileId)
    ensures row.id == g.id && row.action == g.action && row.createdAt == g.createdAt
    ensures row.ip == g.ip && row.userAgent == g.userAgent
    ensures forall l | l in links && l.id == g.linkId ::
      (row.linkToken == l.token
       && forall f | f in files && f.id == l.fileId :: row.file == FileRef(f.id, f.originalName))
  {
    var l := LinkOf(links, g.linkId);
    var f := FileOf(files, l.fileId);
    forall l' | l' in links && l'.id == g.linkId ensures l' == l {
      SameKeySameRow(links, LinkId, l', l);
    }
    forall f' | f' in files && f'.id == l.fileId ensures f' == f {
      SameKeySameRow(files, FileId, f', f);
    }
    LogRow(g.id, g.action, g.ip, g.userAgent, g.createdAt, FileRef(f.id, f.originalName), l.token)
  }

  function LogRows(page: seq<AccessLog>, links: seq<ShareLink>, files: seq<FileRecord>): (rows: seq<LogRow>)
    requires forall g | g in page :: g.linkId in Keys(links, LinkId)
    requires LinksReferToFiles(links, files) && Distinct(links, LinkId) && Distinct(files, FileId)
    ensures |rows| == |page|
    ensures forall i :: 0 <= i < |page| ==> rows[i] == LogRowOf(page[i], links, files)
  {
    seq(|page|, i requires 0 <= i < |page| => LogRowOf(page[i], links, files))
  }

  /** The rows of the window at `skip` of the matching entries are rows of matching
      entries. */
  lemma LogRowsMatch(
    logs: seq<AccessLog>, links: seq<ShareLink>, files: seq<FileRecord>,
    action: Option<AccessAction>, startDate: Option<nat>, endDate: Option<nat>, skip: nat, take: nat)
    requires LogsReferToLinks(logs, links) && LinksReferToFiles(links, files)
    requires Distinct(links, LinkId) && Distinct(files, FileId)
    ensures forall row | row in LogRows(NewestWindow(MatchingLogs(logs, action, startDate, endDate), LogCreatedAt, skip, take), links, files) ::
      exists g | g in logs :: LogMatches(g, action, startDate, endDate) && row == LogRowOf(g, links, files)
  {
    var page := NewestWindow(MatchingLogs(logs, action, startDate, endDate), LogCreatedAt, skip, take);
    var rows := LogRows(page, links, files);
    forall row | row in rows ensures exists g | g in logs ::
      LogMatches(g, action, startDate, endDate) && row == LogRowOf(g, links, files)
    {
      var i :| 0 <= i < |rows| && rows[i] == row;
      assert page[i] in page;
    }
  }

  /** The rows of the window keep the newest-first order. */
  lemma LogRowsOrdered(page: seq<AccessLog>, links: seq<ShareLink>, files: seq<FileRecord>)
    requires forall g | g in page :: g.linkId in Keys(links, LinkId)
    requires LinksReferToFiles(links, files) && Distinct(links, LinkId) && Distinct(files, FileId)
    requires NewestFirst(page, LogCreatedAt)
    ensures var rows := LogRows(page, links, files);
      forall i, j :: 0 <= i < j < |rows| ==> rows[i].createdAt >= rows[j].createdAt
  {
    var rows := LogRows(page, links, files);
    forall i, j | 0 <= i < j < |rows| ensures rows[i].createdAt >= rows[j].createdAt {
      assert LogCreatedAt(page[i]) >= LogCreatedAt(page[j]);
    }
  }

  /** Every entry of `ordered` has its link, and row `i` of `rows` is the row of the entry
      at position `skip + i` of `ordered`. */
  ghost predicate LogRowsFrom(
    rows: seq<LogRow>, ordered: seq<AccessLog>, skip: nat, links: seq<ShareLink>, files: seq<FileRecord>)
    requires LinksReferToFiles(links, files) && Distinct(links, LinkId) && Distinct(files, FileId)
  {
    && (forall g | g in ordered :: g.linkId in Keys(links, LinkId))
    && WindowOf(rows, LogRows(ordered, links, files), skip)
  }

  /** The rows of the window at `skip` of `s` ordered newest first are the rows of the
      entries at those positions. */
  lemma LogRowsAt(s: seq<AccessLog>, links: seq<ShareLink>, files: seq<FileRecord>, skip: nat, take: nat)
    requires forall g | g in s :: g.linkId in Keys(links, LinkId)
    requires LinksReferToFiles(links, files) && Distinct(links, LinkId) && Distinct(files, FileId)
    ensures LogRowsFrom(LogRows(NewestWindow(s, LogCreatedAt, skip, take), links, files),
                        SortNewestFirst(s, LogCreatedAt), skip, links, files)
  {
    var ordered := SortNewestFirst(s, LogCreatedAt);
    forall g | g in ordered ensures g.linkId in Keys(links, LinkId) {
      SortedMembers(s, LogCreatedAt, g);
    }
    var all := LogRows(ordered, links, files);
    var page := NewestWindow(s, LogCreatedAt, skip, take);
    var rows := LogRows(page, links, files);
    forall i | 0 <= i < |rows| ensures skip + i < |all| && rows[i] == all[skip + i] {
      assert page[i] == ordered[skip + i];
    }
  }

  datatype LogsPage = LogsPage(data: seq<LogRow>, meta: PageMeta)

  /** `getLogs({ skip, take, action, startDate, endDate })`. */
  function GetLogs(
    logs: seq<AccessLog>, links: seq<ShareLink>, files: seq<FileRecord>,
    skip: Option<nat>, take: Option<nat>, action: Option<AccessAction>,
    startDate: Option<nat>, endDate: Option<nat>)
    : (r: LogsPage)
    requires LogsReferToLinks(logs, links) && LinksReferToFiles(links, files)
    requires Distinct(links, LinkId) && Distinct(files, FileId)
    ensures r.meta.skip == skip.GetOr(0) && r.meta.take == take.GetOr(DefaultLogsTake)
    ensures r.meta.total == |MatchingLogs(logs, action, startDate, endDate)|
    ensures |r.data| == if r.meta.skip >= r.meta.total then 0 else Min(r.meta.take, r.meta.total - r.meta.skip)
    ensures forall row | row in r.data :: exists g | g in logs ::
      LogMatches(g, action, startDate, endDate) && row == LogRowOf(g, links, files)
    ensures forall i, j :: 0 <= i < j < |r.data| ==> r.data[i].createdAt >= r.data[j].createdAt
    ensures LogRowsFrom(r.data, SortNewestFirst(MatchingLogs(logs, action, startDate, endDate), LogCreatedAt),
                        r.meta.skip, links, files)
  {
    var s := skip.GetOr(0);
    var t := take.GetOr(DefaultLogsTake);
    var matching := MatchingLogs(logs, action, startDate, endDate);
    var page := NewestWindow(matching, LogCreatedAt, s, t);
    LogRowsMatch(logs, links, files, action, startDate, endDate, s, t);
    LogRowsOrdered(page, links, files);
    LogRowsAt(matching, links, files, s, t);
    LogsPage(LogRows(page, links, files), PageMeta(|matching|, s, t))
  }
}
