/** The append-only access log (access-log.service.ts): `log` appends one entry,
    `findAll` reads a filtered, ordered page of entries. */
module AccessLogs {
  import opened Common
  import opened Tables
  import opened Schema

  /** What the store raises when the entry names a link that does not exist. */
  const UnknownLink := Error(StoreError, "Foreign key constraint failed on the field: linkId")

  /** The page size when the caller gives none. */
  const DefaultTake: nat := 50

  /** `log(params)`: one new entry at the end of the log, stamped `now`. */
  method Log(
    db: Database, linkId: string, action: AccessAction, ip: Option<string>,
    userAgent: Option<string>, id: string, now: nat)
    returns (r: Result<AccessLog>)
    requires db.Valid()
    requires id !in Keys(db.logs, LogId)
    modifies db
    ensures db.Valid()
    ensures db.files == old(db.files) && db.links == old(db.links)
    ensures db.users == old(db.users) && db.packages == old(db.packages)
    ensures old(db.logs) <= db.logs
    ensures linkId in Keys(old(db.links), LinkId) ==>
      r == Ok(AccessLog(id, linkId, action, ip, userAgent, now)) && db.logs == old(db.logs) + [r.value]
    ensures linkId !in Keys(old(db.links), LinkId) ==> r == Err(UnknownLink) && db.logs == old(db.logs)
  {
    if IndexOf(db.links, LinkId, linkId).None? {
      return Err(UnknownLink);
    }
    var entry := AccessLog(id, linkId, action, ip, userAgent, now);
    DistinctAppend(db.logs, entry, LogId);
    db.logs := db.logs + [entry];
    r := Ok(entry);
  }

  /** The `where` of `findAll`: a truthy `linkId` restricts to that link. */
  predicate ForLink(g: AccessLog, linkId: Option<string>) {
    !Truthy(linkId) || g.linkId == linkId.value
  }

  function Matching(logs: seq<AccessLog>, linkId: Option<string>): (r: seq<AccessLog>)
    ensures forall g | g in r :: g in logs && ForLink(g, linkId)
    ensures forall g | g in logs && ForLink(g, linkId) :: g in r
  {
    Where(logs, (g: AccessLog) => ForLink(g, linkId))
  }

  datatype LogPage = LogPage(data: seq<AccessLog>, meta: PageMeta)

  /** `findAll({ skip, take, linkId })`. */
  function FindAll(logs: seq<AccessLog>, skip: Option<nat>, take: Option<nat>, linkId: Option<string>)
    : (r: LogPage)
    ensures r.meta.skip == skip.GetOr(0) && r.meta.take == take.GetOr(DefaultTake)
    ensures r.meta.total == |Matching(logs, linkId)|
    ensures |r.data| == if r.meta.skip >= r.meta.total then 0 else Min(r.meta.take, r.meta.total - r.meta.skip)
    ensures forall g | g in r.data :: g in logs && ForLink(g, linkId)
    ensures NewestFirst(r.data, LogCreatedAt)
    ensures WindowOf(r.data, SortNewestFirst(Matching(logs, linkId), LogCreatedAt), r.meta.skip)
  {
    var s := skip.GetOr(0);
    var t := take.GetOr(DefaultTake);
    var matching := Matching(logs, linkId);
    var page := NewestWindow(matching, LogCreatedAt, s, t);
    LogPage(page, PageMeta(|matching|, s, t))
  }
}
