/** The share-link engine (share-link.service.ts): creating a link to a file, checking a
    visitor's access to it (`verify`), serving a download, and deactivating a link.
    The checks a link must pass are pure predicates over the link row and the current
    time; the operations are methods on the store. */
module ShareLinks {
  import opened Common
  import opened Text
  import opened Tables
  import opened Schema
  import AccessLogs

  const LinkNotFound := Error(NotFound, "Share link not found")
  const LinkInactive := Error(Forbidden, "This link is no longer active")
  const LinkExpired := Error(Forbidden, "This link has expired")
  const LimitExceeded := Error(Forbidden, "Download limit exceeded")
  const PasswordRequired := Error(BadRequest, "Password required")
  const InvalidPassword := Error(Forbidden, "Invalid password")

  /** The token is this many random bytes, hex encoded. */
  const TokenBytes: nat := 32

  // ---------------------------------------------------------------------------
  // Answers
  // ---------------------------------------------------------------------------

  datatype FileSummary = FileSummary(id: string, name: string, size: string)

  /** What `create` returns: the link without its password hash. */
  datatype CreatedLink = CreatedLink(
    id: string, token: string, hasPassword: bool,
    expireAt: Option<nat>, downloadLimit: Option<nat>, file: FileSummary)

  datatype FileDetails = FileDetails(id: string, name: string, size: string, mimeType: string)

  /** What `verify` returns. */
  datatype Verified = Verified(valid: bool, file: FileDetails)

  /** What `download` returns. */
  datatype DownloadTicket = DownloadTicket(downloadUrl: string, fileName: string, mimeType: string)

  function Summary(f: FileRecord): (s: FileSummary)
    ensures s.id == f.id && s.name == f.originalName
    ensures (forall i :: 0 <= i < |s.size| ==> IsDigit(s.size[i])) && ParseDecimal(s.size) == f.size
  {
    DecimalRoundTrip(f.size);
    FileSummary(f.id, f.originalName, DecimalString(f.size))
  }

  function Details(f: FileRecord): (d: FileDetails)
    ensures d.id == f.id && d.name == f.originalName && d.mimeType == f.mimeType
    ensures (forall i :: 0 <= i < |d.size| ==> IsDigit(d.size[i])) && ParseDecimal(d.size) == f.size
  {
    DecimalRoundTrip(f.size);
    FileDetails(f.id, f.originalName, DecimalString(f.size), f.mimeType)
  }

  // ---------------------------------------------------------------------------
  // The checks
  // ---------------------------------------------------------------------------

  /** `shareLink.expireAt && now > shareLink.expireAt`: strictly after the deadline. */
  predicate IsExpired(l: ShareLink, now: nat) {
    l.expireAt.Some? && now > l.expireAt.value
  }

  /** `shareLink.downloadLimit && count >= downloadLimit`: a missing or zero limit never blocks. */
  predicate LimitReached(l: ShareLink) {
    TruthyNat(l.downloadLimit) && l.currentDownloadCount >= l.downloadLimit.value
  }

  /** `if (shareLink.password)`: the link holds a (non-empty) hash. */
  predicate Protected(l: ShareLink) {
    l.password.Some? && l.password.value.digest != ""
  }

  /** The three checks `verify` and `download` share, in their order. */
  function AccessDenial(l: ShareLink, now: nat): (r: Option<Error>)
    ensures r.None? <==> l.isActive && !IsExpired(l, now) && !LimitReached(l)
    ensures r == Some(LinkInactive) <==> !l.isActive
    ensures r == Some(LinkExpired) <==> l.isActive && IsExpired(l, now)
    ensures r == Some(LimitExceeded) <==> l.isActive && !IsExpired(l, now) && LimitReached(l)
  {
    if !l.isActive then Some(LinkInactive)
    else if IsExpired(l, now) then Some(LinkExpired)
    else if LimitReached(l) then Some(LimitExceeded)
    else None
  }

  /** The password check of `verify`, which `download` does not make. */
  function PasswordDenial(l: ShareLink, supplied: Option<string>, hasher: Hasher): (r: Option<Error>)
    ensures !Protected(l) ==> r.None?
    ensures r == Some(PasswordRequired) <==> Protected(l) && !Truthy(supplied)
    ensures r == Some(InvalidPassword) <==>
      Protected(l) && Truthy(supplied) && !hasher.compare(supplied.value, l.password.value)
    ensures r.None? || r == Some(PasswordRequired) || r == Some(InvalidPassword)
  {
    if !Protected(l) then None
    else if !Truthy(supplied) then Some(PasswordRequired)
    else if !hasher.compare(supplied.value, l.password.value) then Some(InvalidPassword)
    else None
  }

  // ---------------------------------------------------------------------------
  // Reading the tables
  // ---------------------------------------------------------------------------

  /** `findByToken`: the link with that token, or NotFound. */
  function FindByToken(links: seq<ShareLink>, token: string): (r: Result<ShareLink>)
    ensures r.Ok? <==> token in Keys(links, LinkToken)
    ensures r.Ok? ==> r.value in links && r.value.token == token
    ensures r.Err? ==> r.error == LinkNotFound
  {
    match IndexOf(links, LinkToken, token)
    case None => Err(LinkNotFound)
    case Some(i) => Ok(links[i])
  }

  /** Under unique tokens the lookup finds exactly the row holding the token. */
  lemma FindByTokenFinds(links: seq<ShareLink>, i: nat)
    requires Distinct(links, LinkToken) && i < |links|
    ensures FindByToken(links, links[i].token) == Ok(links[i])
  {
    IndexOfDistinct(links, LinkToken, i);
  }

  /** The answer `verify` gives in a given state of the tables. */
  function VerifyOutcome(
    links: seq<ShareLink>, files: seq<FileRecord>, token: string,
    supplied: Option<string>, now: nat, hasher: Hasher)
    : (r: Result<Verified>)
    requires LinksReferToFiles(links, files)
    ensures token !in Keys(links, LinkToken) ==> r == Err(LinkNotFound)
    ensures r.Ok? ==> r.value.valid
  {
    match FindByToken(links, token)
    case Err(e) => Err(e)
    case Ok(l) =>
      match AccessDenial(l, now)
      case Some(e) => Err(e)
      case None =>
        match PasswordDenial(l, supplied, hasher)
        case Some(e) => Err(e)
        case None => Ok(Verified(true, Details(FileOf(files, l.fileId))))
  }

  /** The answer `download` gives in a given state of the tables. */
  function DownloadOutcome(
    links: seq<ShareLink>, files: seq<FileRecord>, token: string, now: nat, store: ObjectStore)
    : (r: Result<DownloadTicket>)
    requires LinksReferToFiles(links, files)
    ensures token !in Keys(links, LinkToken) ==> r == Err(LinkNotFound)
  {
    match FindByToken(links, token)
    case Err(e) => Err(e)
    case Ok(l) =>
      match AccessDenial(l, now)
      case Some(e) => Err(e)
      case None =>
        var f := FileOf(files, l.fileId);
        Ok(DownloadTicket(store.signDownload(f.s3Key), f.originalName, f.mimeType))
  }

  /** `verify` on an existing link: each check applies only when every earlier one passed. */
  lemma VerifyPrecedence(
    links: seq<ShareLink>, files: seq<FileRecord>, i: nat,
    supplied: Option<string>, now: nat, hasher: Hasher)
    requires Distinct(links, LinkToken) && LinksReferToFiles(links, files)
    requires i < |links|
    ensures var l := links[i];
      var r := VerifyOutcome(links, files, l.token, supplied, now, hasher);
      && (r == Err(LinkInactive) <==> !l.isActive)
      && (r == Err(LinkExpired) <==> l.isActive && IsExpired(l, now))
      && (r == Err(LimitExceeded) <==> l.isActive && !IsExpired(l, now) && LimitReached(l))
      && (r == Err(PasswordRequired) <==>
            l.isActive && !IsExpired(l, now) && !LimitReached(l) && Protected(l) && !Truthy(supplied))
      && (r == Err(InvalidPassword) <==>
            l.isActive && !IsExpired(l, now) && !LimitReached(l) && Protected(l) && Truthy(supplied)
            && !hasher.compare(supplied.value, l.password.value))
      && (r.Ok? <==>
            l.isActive && !IsExpired(l, now) && !LimitReached(l)
            && (!Protected(l) || (Truthy(supplied) && hasher.compare(supplied.value, l.password.value))))
      && (r.Ok? ==> r.value == Verified(true, Details(FileOf(files, l.fileId))))
  {
    FindByTokenFinds(links, i);
  }

  /** `download` on an existing link makes the three shared checks and no other. */
  lemma DownloadPrecedence(
    links: seq<ShareLink>, files: seq<FileRecord>, i: nat, now: nat, store: ObjectStore)
    requires Distinct(links, LinkToken) && LinksReferToFiles(links, files)
    requires i < |links|
    ensures var l := links[i];
      var r := DownloadOutcome(links, files, l.token, now, store);
      && (r == Err(LinkInactive) <==> !l.isActive)
      && (r == Err(LinkExpired) <==> l.isActive && IsExpired(l, now))
      && (r == Err(LimitExceeded) <==> l.isActive && !IsExpired(l, now) && LimitReached(l))
      && (r.Ok? <==> l.isActive && !IsExpired(l, now) && !LimitReached(l))
      && (r.Ok? ==> r.value.downloadUrl == store.signDownload(FileOf(files, l.fileId).s3Key))
  {
    FindByTokenFinds(links, i);
  }

  /** `download` succeeds exactly when `verify` would succeed or fail only on the password:
      holding the token is enough to download a password-protected file. */
  lemma DownloadSkipsPassword(
    links: seq<ShareLink>, files: seq<FileRecord>, token: string,
    supplied: Option<string>, now: nat, hasher: Hasher, store: ObjectStore)
    requires LinksReferToFiles(links, files)
    ensures var v := VerifyOutcome(links, files, token, supplied, now, hasher);
      DownloadOutcome(links, files, token, now, store).Ok? <==>
        v.Ok? || v == Err(PasswordRequired) || v == Err(InvalidPassword)
  {
    match FindByToken(links, token)
    case Err(e) =>
    case Ok(l) =>
  }

  // ---------------------------------------------------------------------------
  // Sequential downloads of one link
  // ---------------------------------------------------------------------------

  /** One `download` on a single link row at time `now`: the row after it, or the refusal. */
  function DownloadStep(l: ShareLink, now: nat): (r: Result<ShareLink>)
    ensures r.Ok? <==> AccessDenial(l, now).None?
    ensures r.Ok? ==> r.value == l.(currentDownloadCount := l.currentDownloadCount + 1)
    ensures r.Err? ==> r.error == AccessDenial(l, now).value
  {
    match AccessDenial(l, now)
    case Some(e) => Err(e)
    case None => Ok(l.(currentDownloadCount := l.currentDownloadCount + 1))
  }

  /** Downloads attempted one after another at the given times: how many succeeded, and
      the row afterwards. */
  function Attempts(l: ShareLink, times: seq<nat>): (nat, ShareLink)
    decreases |times|
  {
    if times == [] then (0, l)
    else
      match DownloadStep(l, times[0])
      case Ok(next) => var (n, last) := Attempts(next, times[1..]); (n + 1, last)
      case Err(_) => Attempts(l, times[1..])
  }

  /** From any count within the limit, the count never passes the limit, and the number of
      successful downloads is exactly the growth of the counter. */
  lemma {:induction false} AttemptsWithinLimit(l: ShareLink, times: seq<nat>)
    requires TruthyNat(l.downloadLimit) && l.currentDownloadCount <= l.downloadLimit.value
    decreases |times|
    ensures var (n, last) := Attempts(l, times);
      && last.currentDownloadCount <= l.downloadLimit.value
      && last.currentDownloadCount == l.currentDownloadCount + n
      && n <= l.downloadLimit.value - l.currentDownloadCount
      && last == l.(currentDownloadCount := last.currentDownloadCount)
  {
    if times != [] {
      match DownloadStep(l, times[0])
      case Ok(next) => AttemptsWithinLimit(next, times[1..]);
      case Err(_) => AttemptsWithinLimit(l, times[1..]);
    }
  }

  /** Downloads that stay inside the deadline all succeed while the limit allows them. */
  lemma {:induction false} AttemptsAllSucceed(l: ShareLink, times: seq<nat>)
    requires l.isActive && TruthyNat(l.downloadLimit)
    requires l.currentDownloadCount + |times| <= l.downloadLimit.value
    requires forall t | t in times :: !IsExpired(l, t)
    ensures Attempts(l, times) == (|times|, l.(currentDownloadCount := l.currentDownloadCount + |times|))
    decreases |times|
  {
    if times != [] {
      assert times[0] in times;
      var next := l.(currentDownloadCount := l.currentDownloadCount + 1);
      forall t | t in times[1..] ensures !IsExpired(next, t) {
        assert t in times;
      }
      AttemptsAllSucceed(next, times[1..]);
    }
  }

  /** `download` on a stored link does exactly what `DownloadStep` does to its row: it
      succeeds when the step does, and then the counter update by id rewrites that row
      into the step's result and no other. */
  lemma DownloadIsStep(links: seq<ShareLink>, files: seq<FileRecord>, i: nat, now: nat, store: ObjectStore)
    requires Distinct(links, LinkId) && Distinct(links, LinkToken) && LinksReferToFiles(links, files)
    requires i < |links|
    ensures DownloadOutcome(links, files, links[i].token, now, store).Ok? <==> DownloadStep(links[i], now).Ok?
    ensures DownloadStep(links[i], now).Ok? ==>
      IncrementCount(links, links[i].id) == links[i := DownloadStep(links[i], now).value]
  {
    DownloadPrecedence(links, files, i, now, store);
    IncrementCountAt(links, i);
  }

  /** A fresh link with limit k serves exactly k downloads; the next one is refused with
      "Download limit exceeded". */
  lemma LimitAllowsExactly(l: ShareLink, times: seq<nat>, now: nat)
    requires l.isActive && l.currentDownloadCount == 0
    requires TruthyNat(l.downloadLimit) && |times| == l.downloadLimit.value
    requires forall t | t in times :: !IsExpired(l, t)
    requires !IsExpired(l, now)
    ensures Attempts(l, times).0 == l.downloadLimit.value
    ensures DownloadStep(Attempts(l, times).1, now) == Err(LimitExceeded)
  {
    AttemptsAllSucceed(l, times);
  }

  // ---------------------------------------------------------------------------
  // The operations
  // ---------------------------------------------------------------------------

  /** The row `create` inserts: active, never downloaded, with a hash only when a
      password was given. */
  function NewLink(
    id: string, token: string, fileId: string, password: Option<string>,
    expireAt: Option<nat>, downloadLimit: Option<nat>, now: nat, hasher: Hasher)
    : (l: ShareLink)
    ensures l.id == id && l.token == token && l.fileId == fileId
    ensures l.isActive && l.currentDownloadCount == 0 && l.createdAt == now
    ensures l.expireAt == expireAt && l.downloadLimit == downloadLimit
    ensures l.password.Some? <==> Truthy(password)
    ensures Truthy(password) ==> l.password == Some(hasher.hash(password.value, BcryptRounds))
  {
    var hashed := if Truthy(password) then Some(hasher.hash(password.value, BcryptRounds)) else None;
    ShareLink(id, token, fileId, hashed, expireAt, downloadLimit, 0, true, now)
  }

  /** The answer of `create`; it has no field that could carry the hash. */
  function Created(l: ShareLink, f: FileRecord): (c: CreatedLink)
    ensures c.id == l.id && c.token == l.token && c.hasPassword == Protected(l)
    ensures c.expireAt == l.expireAt && c.downloadLimit == l.downloadLimit
    ensures c.file == Summary(f)
  {
    CreatedLink(l.id, l.token, Protected(l), l.expireAt, l.downloadLimit, Summary(f))
  }

  /** A link just created admits any visit before its deadline, whatever its limit. */
  lemma NewLinkAdmits(
    id: string, token: string, fileId: string, password: Option<string>,
    expireAt: Option<nat>, downloadLimit: Option<nat>, created: nat, hasher: Hasher, now: nat)
    requires expireAt.None? || now <= expireAt.value
    ensures AccessDenial(NewLink(id, token, fileId, password, expireAt, downloadLimit, created, hasher), now).None?
  {
  }

  /** Round trip: after `create` with a password, `verify` with the same password is let
      through, without one it is asked for it, and with a non-matching one it is refused;
      a link created without a password lets every visitor through. */
  lemma VerifyAfterCreate(
    links: seq<ShareLink>, files: seq<FileRecord>, l: ShareLink,
    password: Option<string>, supplied: Option<string>, now: nat, hasher: Hasher)
    requires Distinct(links, LinkToken) && l.token !in Keys(links, LinkToken)
    requires LinksReferToFiles(links + [l], files)
    requires l == NewLink(l.id, l.token, l.fileId, password, l.expireAt, l.downloadLimit, l.createdAt, hasher)
    requires l.expireAt.None? || now <= l.expireAt.value
    requires AcceptsOwnHashes(hasher) && HashesNonEmpty(hasher)
    ensures var links' := links + [l];
      && (Truthy(password) ==> VerifyOutcome(links', files, l.token, password, now, hasher).Ok?)
      && (Truthy(password) && !Truthy(supplied) ==>
            VerifyOutcome(links', files, l.token, supplied, now, hasher) == Err(PasswordRequired))
      && (Truthy(password) && Truthy(supplied)
            && !hasher.compare(supplied.value, hasher.hash(password.value, BcryptRounds)) ==>
            VerifyOutcome(links', files, l.token, supplied, now, hasher) == Err(InvalidPassword))
      && (!Truthy(password) ==> VerifyOutcome(links', files, l.token, supplied, now, hasher).Ok?)
  {
    var links' := links + [l];
    DistinctAppend(links, l, LinkToken);
    assert links'[|links|] == l;
    FindByTokenFinds(links', |links|);
  }

  /** `create(dto)`. The token is the hex encoding of `random`, the id is the store's
      fresh key. */
  method Create(
    db: Database, fileId: string, password: Option<string>, expireAt: Option<nat>,
    downloadLimit: Option<nat>, random: seq<byte>, id: string, now: nat, hasher: Hasher)
    returns (r: Result<CreatedLink>)
    requires db.Valid()
    requires |random| == TokenBytes
    requires id !in Keys(db.links, LinkId) && HexEncode(random) !in Keys(db.links, LinkToken)
    modifies db
    ensures db.Valid()
    ensures db.files == old(db.files) && db.logs == old(db.logs)
    ensures db.users == old(db.users) && db.packages == old(db.packages)
    ensures fileId !in Keys(old(db.files), FileId) ==> r == Err(FileNotFound) && db.links == old(db.links)
    ensures fileId in Keys(old(db.files), FileId) ==>
      var l := NewLink(id, HexEncode(random), fileId, password, expireAt, downloadLimit, now, hasher);
      && db.links == old(db.links) + [l]
      && r == Ok(Created(l, FileOf(old(db.files), fileId)))
    ensures r.Ok? ==> |r.value.token| == 2 * TokenBytes
    ensures r.Ok? && HashesNonEmpty(hasher) ==> (r.value.hasPassword <==> Truthy(password))
  {
    if IndexOf(db.files, FileId, fileId).None? {
      return Err(FileNotFound);
    }
    var token := HexEncode(random);
    var l := NewLink(id, token, fileId, password, expireAt, downloadLimit, now, hasher);
    DistinctAppend(db.links, l, LinkId);
    DistinctAppend(db.links, l, LinkToken);
    db.links := db.links + [l];
    r := Ok(Created(l, FileOf(db.files, fileId)));
  }

  /** `verify(token, dto, ip, userAgent)`: on success one VIEW entry is logged and no link
      changes. */
  method Verify(
    db: Database, token: string, supplied: Option<string>, ip: Option<string>,
    userAgent: Option<string>, logId: string, now: nat, hasher: Hasher)
    returns (r: Result<Verified>)
    requires db.Valid()
    requires logId !in Keys(db.logs, LogId)
    modifies db
    ensures db.Valid()
    ensures r == VerifyOutcome(old(db.links), old(db.files), token, supplied, now, hasher)
    ensures db.links == old(db.links) && db.files == old(db.files)
    ensures db.users == old(db.users) && db.packages == old(db.packages)
    ensures r.Ok? ==>
      db.logs == old(db.logs) + [AccessLog(logId, FindByToken(old(db.links), token).value.id, View, ip, userAgent, now)]
    ensures r.Err? ==> db.logs == old(db.logs)
  {
    var found := FindByToken(db.links, token);
    if found.Err? {
      return Err(found.error);
    }
    var l := found.value;
    var denial := AccessDenial(l, now);
    if denial.Some? {
      return Err(denial.value);
    }
    var refusal := PasswordDenial(l, supplied, hasher);
    if refusal.Some? {
      return Err(refusal.value);
    }
    assert LinkId(l) in Keys(db.links, LinkId);
    var logged := AccessLogs.Log(db, l.id, View, ip, userAgent, logId, now);
    r := Ok(Verified(true, Details(FileOf(db.files, l.fileId))));
  }

  /** `download(token, ip, userAgent)`: on success the link's counter grows by one and one
      DOWNLOAD entry is logged. */
  method Download(
    db: Database, token: string, ip: Option<string>, userAgent: Option<string>,
    logId: string, now: nat, store: ObjectStore)
    returns (r: Result<DownloadTicket>)
    requires db.Valid()
    requires logId !in Keys(db.logs, LogId)
    modifies db
    ensures db.Valid()
    ensures r == DownloadOutcome(old(db.links), old(db.files), token, now, store)
    ensures db.files == old(db.files) && db.users == old(db.users) && db.packages == old(db.packages)
    ensures r.Ok? ==>
      var l := FindByToken(old(db.links), token).value;
      && db.links == IncrementCount(old(db.links), l.id)
      && db.logs == old(db.logs) + [AccessLog(logId, l.id, AccessAction.Download, ip, userAgent, now)]
    ensures r.Err? ==> db.links == old(db.links) && db.logs == old(db.logs)
  {
    var found := FindByToken(db.links, token);
    if found.Err? {
      return Err(found.error);
    }
    var l := found.value;
    var denial := AccessDenial(l, now);
    if denial.Some? {
      return Err(denial.value);
    }
    var f := FileOf(db.files, l.fileId);
    var links0 := db.links;
    assert LinkId(l) in Keys(links0, LinkId);
    LinkRowsRewritten(db.files, links0, IncrementCount(links0, l.id), db.logs, db.users, db.packages);
    DistinctSameKeys(links0, IncrementCount(links0, l.id), LinkId);
    db.links := IncrementCount(links0, l.id);
    var logged := AccessLogs.Log(db, l.id, AccessAction.Download, ip, userAgent, logId, now);
    r := Ok(DownloadTicket(store.signDownload(f.s3Key), f.originalName, f.mimeType));
  }

  /** `deactivate(id)`. */
  method Deactivate(db: Database, id: string) returns (r: Result<bool>)
    requires db.Valid()
    modifies db
    ensures db.Valid()
    ensures db.files == old(db.files) && db.logs == old(db.logs)
    ensures db.users == old(db.users) && db.packages == old(db.packages)
    ensures id in Keys(old(db.links), LinkId) ==> r == Ok(true) && db.links == MarkInactive(old(db.links), id)
    ensures id !in Keys(old(db.links), LinkId) ==> r == Err(LinkNotFound) && db.links == old(db.links)
  {
    if IndexOf(db.links, LinkId, id).None? {
      return Err(LinkNotFound);
    }
    LinkRowsRewritten(db.files, db.links, MarkInactive(db.links, id), db.logs, db.users, db.packages);
    db.links := MarkInactive(db.links, id);
    r := Ok(true);
  }

  /** Deactivating twice is the same as deactivating once. */
  lemma DeactivateIdempotent(links: seq<ShareLink>, id: string)
    ensures MarkInactive(MarkInactive(links, id), id) == MarkInactive(links, id)
  {
    var once := MarkInactive(links, id);
    var twice := MarkInactive(once, id);
    forall i | 0 <= i < |links| ensures twice[i] == once[i] {
      assert twice[i].(isActive := once[i].isActive) == once[i];
    }
  }

  /** Deactivation turns off exactly the link with that id: it alone is then refused, with
      "This link is no longer active", and every other link's checks are unchanged. */
  lemma DeactivatedIsRefused(links: seq<ShareLink>, id: string, i: nat, now: nat)
    requires i < |links|
    ensures var l' := MarkInactive(links, id)[i];
      && (links[i].id == id ==> AccessDenial(l', now) == Some(LinkInactive))
      && (links[i].id != id ==> l' == links[i])
  {
    var l' := MarkInactive(links, id)[i];
    assert l'.(isActive := links[i].isActive) == links[i];
  }
}
