# secure-file-share, modelled in Dafny

A model of the server side of secure-file-share. This is a NestJS service over a
relational store (Prisma) and an S3 object store. It lets an uploader store a file in
parts and hand out share links to it. A share link is a random token. It can carry a
password hash, a deadline (`expireAt`) and a download limit, and it counts its downloads.
Visitors open a link with `verify` and fetch the file with `download`. Every successful
access appends a VIEW or DOWNLOAD entry to an access log. A background job switches off
links whose deadline has passed or whose limit is used up. Administrators list files and
log entries and see totals. Users register and log in. Files can be grouped into
packages.

Layout, one module per file:

| module | file | models |
|---|---|---|
| `Common` | common.dfy | option and result values, the error kinds the services throw, JavaScript truthiness of optional values |
| `Text` | text.dfy | hex encoding of the random token, decimal rendering of a BigInt size, ASCII case-insensitive `contains` |
| `Tables` | tables.dfy | a table as a sequence of rows: unique lookup, `where`, `count`, `skip`/`take`, `orderBy createdAt desc` |
| `Schema` | schema.dfy | the rows, the abstract hasher and object store, and `class Database`. Its fields are the five tables. `Valid()` is the store's own guarantee: unique ids, tokens and emails, and the foreign keys. The cascade when a file is deleted is the method `Database.DeleteFileCascade` |
| `AccessLogs` | access_logs.dfy | access-log.service.ts |
| `ShareLinks` | share_links.dfy | share-link.service.ts |
| `LinkCleanup` | link_cleanup.dfy | link-cleanup.processor.ts |
| `Files` | files.dfy | file.service.ts |
| `Admin` | admin.dfy | admin.service.ts |
| `Auth` | auth.dfy | auth.service.ts |
| `Packages` | packages.dfy | package.service.ts |

Operations that change the store are module methods that take a `Database`; the cascading
file delete is the store's own method, `Database.DeleteFileCascade`. Each one says what every
table looks like afterwards and keeps `Valid()`. Read-only queries and the access checks
are functions over the tables. The lemmas beside them carry the properties: check
precedence, counting bounds, round trips, idempotence and the sweep boundary.

Outside services become parameters:
- The current time is a `nat`, `now`.
- bcrypt is a `Hasher`: a pair of uninterpreted `hash` and `compare` functions. The round
  trips assume `AcceptsOwnHashes`: a password matches its own hash. `VerifyAfterCreate` also
  assumes `HashesNonEmpty`: no hash is the empty string, as no bcrypt hash is.
- S3 is an `ObjectStore` of uninterpreted functions. Completing, aborting and deleting
  return the error they raise. `initiate` returns an upload id or none; an error it throws
  is not modelled.
- JWT signing is a `Signer` function.
- Random bytes, uuids and row ids are parameters. The random bytes (through the token they
  encode) and the row ids each come with a precondition that they are not already in use.
  The uuid of an upload has no precondition.

## Model

| member | source | states |
|---|---|---|
| `Text.HexEncode` | secure-file-share/api/src/share-link/share-link.service.ts:35 | the token has two lower-case hex characters per random byte |
| `Text.HexRoundTrip` | secure-file-share/api/src/share-link/share-link.service.ts:35 | decoding the hex token gives back the random bytes |
| `Text.HexEncodeInjective` | secure-file-share/api/src/share-link/share-link.service.ts:35 | different random bytes give different tokens |
| `Text.DecimalString` | secure-file-share/api/src/share-link/share-link.service.ts:71 | `size.toString()` is all digits, non-empty, with no leading zero |
| `Text.DecimalRoundTrip` | secure-file-share/api/src/share-link/share-link.service.ts:71 | parsing the rendered size gives back the size |
| `Text.ContainsIgnoreCaseOfCaseVariant` | secure-file-share/api/src/admin/admin.service.ts:19-26 | a name matches a case-insensitive search for itself written in any case |
| `Text.ContainsEmpty` | secure-file-share/api/src/admin/admin.service.ts:19-26 | the empty needle occurs in every name |
| `Tables.Page` | secure-file-share/api/src/admin/admin.service.ts:28-33 | `skip`/`take` returns `min(take, n - skip)` rows starting at position `skip`, and none when `skip >= n` |
| `Tables.SortNewestFirst` | secure-file-share/api/src/access-log/access-log.service.ts:69 | `orderBy createdAt desc` orders newest first and is a permutation of the rows |
| `Schema.MarkInactive` | secure-file-share/api/src/share-link/share-link.service.ts:216-219 | the update by id clears `isActive` of the row with that id and changes no other column or row |
| `Schema.IncrementCount` | secure-file-share/api/src/share-link/share-link.service.ts:155-160 | the increment by id raises that row's `currentDownloadCount` by exactly one and changes nothing else |
| `Schema.IncrementCountAt` | secure-file-share/api/src/share-link/share-link.service.ts:155-160 | under unique ids the increment touches exactly one row |
| `Schema.SetPackage` | secure-file-share/api/src/package/package.service.ts:41-53 | the update by id sets `packageId` of that file only |
| `Schema.ClearPackage` | secure-file-share/api/src/package/package.service.ts:57-60 | the bulk update nulls `packageId` on exactly the files of that package |
| `Schema.FileOf` | secure-file-share/api/src/share-link/share-link.service.ts:224-230 | the file a link's foreign key names is in the table and has that id |
| `Schema.FilesExcept` | secure-file-share/api/src/admin/admin.service.ts:93-95 | the delete by id keeps exactly the other files and keeps ids unique |
| `Schema.LinksExcept` | secure-file-share/api/src/admin/admin.service.ts:92-95 | the cascade removes exactly the file's links |
| `Schema.LogsExcept` | secure-file-share/api/src/admin/admin.service.ts:92-95 | the cascade removes exactly the log entries of the removed links |
| `Schema.FilesExceptRemovesOne` | secure-file-share/api/src/file/file.service.ts:93-95 | deleting an existing id removes exactly one row |
| `Schema.Database.DeleteFileCascade` | secure-file-share/api/src/admin/admin.service.ts:92-95 | a file delete removes the file, its links and their logs, and the store stays valid |
| `AccessLogs.Log` | secure-file-share/api/src/access-log/access-log.service.ts:20-53 | appends exactly one entry with the given link, action, ip and user agent; existing entries are a prefix of the new log; an unknown link is refused and nothing is appended |
| `AccessLogs.Matching` | secure-file-share/api/src/access-log/access-log.service.ts:62 | a truthy `linkId` keeps exactly that link's entries |
| `AccessLogs.FindAll` | secure-file-share/api/src/access-log/access-log.service.ts:55-94 | defaults skip 0 and take 50; only matching entries, newest first; `total` counts every match whatever the page; the page is full unless it runs past the end; entry `i` of the page is entry `skip + i` of all matches ordered newest first (`WindowOf`) |
| `ShareLinks.AccessDenial` | secure-file-share/api/src/share-link/share-link.service.ts:79-95 | inactive, then expired (`now > expireAt`), then limit used up (a truthy limit only), each with its exact message; none of them exactly when the link is usable |
| `ShareLinks.PasswordDenial` | secure-file-share/api/src/share-link/share-link.service.ts:97-107 | an unprotected link never asks; a protected one asks with BadRequest when no truthy password is given, and refuses with "Invalid password" when compare fails |
| `ShareLinks.FindByToken` | secure-file-share/api/src/share-link/share-link.service.ts:224-237 | finds a link exactly when the token is in the table, and otherwise gives NotFound "Share link not found" |
| `ShareLinks.FindByTokenFinds` | secure-file-share/api/src/share-link/share-link.service.ts:224-237 | under unique tokens the lookup returns the row holding the token |
| `ShareLinks.Summary` | secure-file-share/api/src/share-link/share-link.service.ts:68-72 | the file summary carries the id, the name and the size as a decimal string that parses back to the size |
| `ShareLinks.Details` | secure-file-share/api/src/share-link/share-link.service.ts:126-131 | the file details carry the id, name, mime type and decimal size |
| `ShareLinks.VerifyOutcome` | secure-file-share/api/src/share-link/share-link.service.ts:76-133 | an unknown token gives NotFound; success always says `valid: true` |
| `ShareLinks.DownloadOutcome` | secure-file-share/api/src/share-link/share-link.service.ts:135-187 | an unknown token gives NotFound |
| `ShareLinks.VerifyPrecedence` | secure-file-share/api/src/share-link/share-link.service.ts:76-107 | on an existing link, each of the five refusals happens exactly when every earlier check passed and this one fails; success exactly when all pass, with the file's details |
| `ShareLinks.DownloadPrecedence` | secure-file-share/api/src/share-link/share-link.service.ts:135-152 | download refuses exactly for inactive, expired or limit, in that order, and otherwise returns the signed URL of the file's key |
| `ShareLinks.DownloadSkipsPassword` | secure-file-share/api/src/share-link/share-link.service.ts:135-152 | download succeeds exactly when verify succeeds or fails only on the password |
| `ShareLinks.DownloadStep` | secure-file-share/api/src/share-link/share-link.service.ts:139-160 | one download on a row either is refused by the shared checks or raises the counter by one |
| `ShareLinks.AttemptsWithinLimit` | secure-file-share/api/src/share-link/share-link.service.ts:147-160 | for sequential downloads from a count within a truthy limit, the count never passes the limit and grows by exactly the number of successes |
| `ShareLinks.AttemptsAllSucceed` | secure-file-share/api/src/share-link/share-link.service.ts:147-160 | downloads before the deadline all succeed while the limit allows them |
| `ShareLinks.DownloadIsStep` | secure-file-share/api/src/share-link/share-link.service.ts:135-160 | on a stored link, `download` succeeds exactly when `DownloadStep` does, and the counter update then turns that row into the step's result and leaves the others, so the limit lemmas about `DownloadStep` hold for `download` |
| `ShareLinks.LimitAllowsExactly` | secure-file-share/api/src/share-link/share-link.service.ts:147-160 | a fresh link with limit k serves exactly k downloads; the next is refused with "Download limit exceeded" |
| `ShareLinks.NewLink` | secure-file-share/api/src/share-link/share-link.service.ts:37-60 | the new row is active with count 0, and it stores a hash (cost 10) exactly when a truthy password is given |
| `ShareLinks.Created` | secure-file-share/api/src/share-link/share-link.service.ts:62-73 | the answer reports `hasPassword` as the truthiness of the stored hash and has no field for the hash |
| `ShareLinks.NewLinkAdmits` | secure-file-share/api/src/share-link/share-link.service.ts:43-50 | a fresh link passes the shared checks before its deadline, whatever its limit |
| `ShareLinks.VerifyAfterCreate` | secure-file-share/api/src/share-link/share-link.service.ts:37-107 | after create: the same password verifies, no password gets "Password required", a non-matching one gets "Invalid password", and an unprotected link lets everyone through |
| `ShareLinks.Create` | secure-file-share/api/src/share-link/share-link.service.ts:24-74 | an unknown file gives NotFound "File not found" and inserts nothing; otherwise exactly one new row with a 64-character token; `hasPassword` exactly when a password was given |
| `ShareLinks.Verify` | secure-file-share/api/src/share-link/share-link.service.ts:76-133 | the answer is `VerifyOutcome`; success appends exactly one VIEW entry; no link field, counter included, changes |
| `ShareLinks.Download` | secure-file-share/api/src/share-link/share-link.service.ts:135-187 | the answer is `DownloadOutcome`; success raises that link's counter by one and appends one DOWNLOAD entry; a refusal changes nothing |
| `ShareLinks.Deactivate` | secure-file-share/api/src/share-link/share-link.service.ts:207-222 | an unknown id gives NotFound "Share link not found"; otherwise only `isActive` of that link is cleared, and the answer is success |
| `ShareLinks.DeactivateIdempotent` | secure-file-share/api/src/share-link/share-link.service.ts:216-219 | deactivating twice is deactivating once |
| `ShareLinks.DeactivatedIsRefused` | secure-file-share/api/src/share-link/share-link.service.ts:207-222 | the deactivated link is then refused as inactive and every other link is untouched |
| `LinkCleanup.ExpireAll` | secure-file-share/src/jobs/link-cleanup.processor.ts:33-43 | links that are active with `expireAt <= now` become inactive and no others do; no other column changes; none is left due |
| `LinkCleanup.LockAll` | secure-file-share/src/jobs/link-cleanup.processor.ts:61-69 | active links with a used-up truthy limit become inactive and no others do; no other column changes; none is left lockable |
| `LinkCleanup.ExpireCountIsFlipped` | secure-file-share/src/jobs/link-cleanup.processor.ts:33-45 | the reported count is the number of links the expiry switched off |
| `LinkCleanup.LockCountIsFlipped` | secure-file-share/src/jobs/link-cleanup.processor.ts:59-68 | the links the lock job switches off are exactly the ones it should lock |
| `LinkCleanup.CandidatesCoverLocks` | secure-file-share/src/jobs/link-cleanup.processor.ts:50-69 | counting used-up links among the fetched candidates counts every link to lock |
| `LinkCleanup.Candidates` | secure-file-share/src/jobs/link-cleanup.processor.ts:50-57 | the fetch returns exactly the active links with a non-null limit, with unique ids |
| `LinkCleanup.LockedCandidatesAreLockAll` | secure-file-share/src/jobs/link-cleanup.processor.ts:61-69 | switching off the used-up candidates by id gives the whole-table sweep |
| `LinkCleanup.ExpireLinks` | secure-file-share/src/jobs/link-cleanup.processor.ts:30-46 | the table becomes `ExpireAll`; the count equals both the matched links and the links switched off; other tables unchanged |
| `LinkCleanup.LockFetched` | secure-file-share/src/jobs/link-cleanup.processor.ts:59-69 | the loop switches off, by id, exactly the fetched links with a used-up limit and counts them |
| `LinkCleanup.LockExceededLinks` | secure-file-share/src/jobs/link-cleanup.processor.ts:48-72 | the table becomes `LockAll`; `lockedCount` is the number of links switched off and at most the number fetched |
| `LinkCleanup.Process` | secure-file-share/src/jobs/link-cleanup.processor.ts:15-28 | the two job names run their sweeps; any other name changes nothing |
| `LinkCleanup.NothingDueAfterExpire` | secure-file-share/src/jobs/link-cleanup.processor.ts:33-43 | after expiry no link matches the expiry filter |
| `LinkCleanup.ExpireIdempotent` | secure-file-share/src/jobs/link-cleanup.processor.ts:33-43 | a second expiry at the same time changes nothing and reports 0 |
| `LinkCleanup.LockIdempotent` | secure-file-share/src/jobs/link-cleanup.processor.ts:50-69 | a second lock run changes nothing and reports 0 |
| `LinkCleanup.SweepsOnlyDeactivate` | secure-file-share/src/jobs/link-cleanup.processor.ts:40-42 | neither sweep sets a link active or changes its counter, limit or deadline |
| `LinkCleanup.ExpiryBoundary` | secure-file-share/src/jobs/link-cleanup.processor.ts:36-38 | the sweep and `verify` disagree exactly on active links whose deadline is `now`; everything verify calls expired, the sweep switches off |
| `LinkCleanup.ExpiryBoundaryExample` | secure-file-share/src/jobs/link-cleanup.processor.ts:36-38 | a link at its deadline is admitted before the sweep and refused as inactive after it |
| `LinkCleanup.LockKeepsDecisions` | secure-file-share/src/jobs/link-cleanup.processor.ts:61-69 | locking changes no access decision, only the message of a refusal |
| `Files.StorageKey` | secure-file-share/api/src/file/file.service.ts:15 | the key starts with `uploads/` and ends with the file name |
| `Files.StorageKeyInjective` | secure-file-share/api/src/file/file.service.ts:15 | keys built from 36-character uuids determine the uuid and the name |
| `Files.PartCount` | secure-file-share/api/src/file/file.service.ts:39 | a truthy `totalParts` is used as is; otherwise enough 5 MiB parts to cover the size, with one fewer not enough |
| `Files.PartCountCovers` | secure-file-share/api/src/file/file.service.ts:39 | a validated size gets at least one part; the default is the fewest parts that cover the file |
| `Files.TwelveMebibytesIsThreeParts` | secure-file-share/api/src/file/file.service.ts:39 | 12 MiB gives 3 parts |
| `Files.PresignParts` | secure-file-share/api/src/file/file.service.ts:40-49 | exactly n URLs; entry i has part number i+1 and the URL signed for it; part numbers ascend |
| `Files.NewFile` | secure-file-share/api/src/file/file.service.ts:18-26 | the record has the given name, mime type and size, and the storage key |
| `Files.InitUpload` | secure-file-share/api/src/file/file.service.ts:14-57 | the record is inserted first and stays; no upload id gives "Failed to initiate multipart upload"; otherwise the session has `PartCount` signed parts |
| `Files.FindById` | secure-file-share/api/src/file/file.service.ts:100-110 | finds the file exactly when the id is present, otherwise NotFound "File not found" |
| `Files.CompleteUpload` | secure-file-share/api/src/file/file.service.ts:59-79 | an unknown file gives NotFound; an object-store failure is passed on; otherwise success with the file's id and name; the table is only read |
| `Files.AbortUpload` | secure-file-share/api/src/file/file.service.ts:81-98 | an unknown file gives NotFound and changes nothing; after the store aborts, exactly that record goes, with its links and logs |
| `Files.Delete` | secure-file-share/api/src/file/file.service.ts:118-130 | an unknown file gives NotFound; the object is deleted before the record; exactly that record goes |
| `Admin.MatchingFiles` | secure-file-share/api/src/admin/admin.service.ts:19-26 | with a truthy search, exactly the files whose name contains it, ignoring case; otherwise all files |
| `Admin.LinksOf` | secure-file-share/api/src/admin/admin.service.ts:41-51 | exactly the links of one file |
| `Admin.UploaderOf` | secure-file-share/api/src/admin/admin.service.ts:35-40 | the uploader is reported exactly when the file names an existing user |
| `Admin.Summarize` | secure-file-share/api/src/admin/admin.service.ts:58-71 | the row keeps the file's id, name, MIME type, storage key and creation time; `size` is the decimal rendering of the size; `uploader` is the joined user; `shareLinksCount` is the number of the file's links and `totalDownloads` the sum of their counters |
| `Admin.GetFiles` | secure-file-share/api/src/admin/admin.service.ts:12-78 | defaults skip 0 and take 20; only matching files, newest first; `total` counts all matches whatever the page; row `i` is the summary of the file at `skip + i` of all matches ordered newest first |
| `Admin.SearchExamples` | secure-file-share/api/src/admin/admin.service.ts:19-26 | a search for a name in another case finds it; no search keeps every file |
| `Admin.WhereAll` | secure-file-share/api/src/admin/admin.service.ts:19-26 | a falsy search filters nothing |
| `Admin.SumOfOwnLinks` | secure-file-share/api/src/admin/admin.service.ts:67-70 | summing the file's selected links equals a one-pass sum over the table |
| `Admin.DownloadRaisesTotal` | secure-file-share/api/src/admin/admin.service.ts:66-70 | one download through a link raises its own file's `totalDownloads` by one, leaves every other file's total, and changes no file's `shareLinksCount` |
| `Admin.DeleteFile` | secure-file-share/api/src/admin/admin.service.ts:80-98 | an unknown file gives NotFound; the object goes first, then the file with its links and their logs |
| `Admin.DeleteLeavesNoTrace` | secure-file-share/api/src/admin/admin.service.ts:92-95 | after the cascade no link and no log entry refers to the file |
| `Admin.GetStats` | secure-file-share/api/src/admin/admin.service.ts:100-119 | file and user counts; downloads count DOWNLOAD entries only; storage is "0" with no files and always parses to the sum of sizes |
| `Admin.StorageIsRenderedSum` | secure-file-share/api/src/admin/admin.service.ts:117 | the "0" fallback agrees with rendering the sum |
| `Admin.LoggedDownloadCounts` | secure-file-share/api/src/admin/admin.service.ts:105-107 | a DOWNLOAD entry raises the statistic by one, a VIEW entry does not |
| `Admin.MatchingLogs` | secure-file-share/api/src/admin/admin.service.ts:130-140 | exactly the entries with the given action and `startDate <= createdAt <= endDate`, each bound only when given |
| `Admin.LogRowOf` | secure-file-share/api/src/admin/admin.service.ts:164-176 | each row carries its entry's fields, its link's token and that link's file |
| `Admin.GetLogs` | secure-file-share/api/src/admin/admin.service.ts:121-183 | defaults skip 0 and take 50; only matching entries, newest first; `total` counts all matches whatever the page; row `i` is the row of the entry at `skip + i` of all matches ordered newest first (`LogRowsFrom`) |
| `Auth.FindByEmail` | secure-file-share/src/auth/auth.service.ts:15-17 | finds a user exactly when the email is registered |
| `Auth.NewUser` | secure-file-share/src/auth/auth.service.ts:23-30 | the stored password is the cost-10 hash, the role is the default |
| `Auth.SessionFor` | secure-file-share/src/auth/auth.service.ts:32-41 | the answer exposes id, email and role and the token signed over them |
| `Auth.Register` | secure-file-share/src/auth/auth.service.ts:14-42 | a taken email gives Conflict "Email already exists" and leaves the users; otherwise exactly one new user with the hashed password |
| `Auth.Login` | secure-file-share/src/auth/auth.service.ts:44-69 | an unknown email and a wrong password both give exactly Unauthorized "Invalid credentials"; succeeds exactly when a user with that email accepts the password |
| `Auth.ValidateUser` | secure-file-share/src/auth/auth.service.ts:71-81 | an unknown id gives Unauthorized "User not found" |
| `Auth.LoginAfterRegister` | secure-file-share/src/auth/auth.service.ts:23-68 | after registering, login with the same password opens a session for the new id; a password the hash rejects is refused |
| `Packages.Create` | secure-file-share/api/src/package/package.service.ts:8-12 | exactly one new package with the given name and description |
| `Packages.Updated` | secure-file-share/api/src/package/package.service.ts:41-53 | the returned file is the stored one with the new `packageId` |
| `Packages.AddFile` | secure-file-share/api/src/package/package.service.ts:41-46 | sets `packageId` on that one file; a missing file or package is an error and changes nothing |
| `Packages.RemoveFile` | secure-file-share/api/src/package/package.service.ts:48-53 | nulls that one file's `packageId` and nothing else |
| `Packages.PackagesExcept` | secure-file-share/api/src/package/package.service.ts:62-64 | the delete keeps exactly the other packages |
| `Packages.Delete` | secure-file-share/api/src/package/package.service.ts:55-65 | member files are unlinked first, then the package row goes; files of other packages are untouched |
| `Packages.DeleteUnlinksMembers` | secure-file-share/api/src/package/package.service.ts:55-60 | afterwards no file is in the package, and only its former members changed |

## Left out

- Socket events (`emitLinkViewed`, `emitLinkDownloaded`, `emitAdminLog`) are fire-and-forget pushes. They are not modelled.
- Logger lines are not modelled. The sweeps return the counts they log, and `process` returns which branch it took.
- The cryptography of bcrypt, JWT signing, `randomBytes` and uuid is not modelled. They are parameters: the `Hasher`, the `Signer`, the random bytes and the ids.
- Concurrency is not modelled: the atomicity of the Prisma increment, and races between the sweeper and live requests. Every property is for sequential calls.
- `Files.PartCount`: `Math.ceil` on a floating-point quotient is modelled as the exact integer ceiling. The two can differ only for sizes near 2^53.
- `ShareLinks.Create`: `dto.expireAt` is taken as an already-parsed `Option<nat>`. ISO-8601 date parsing is not modelled.
- `ShareLinks.Create`: `hasPassword` is proved to follow the password's truthiness only for a hasher whose hashes are never empty (`HashesNonEmpty`), as bcrypt's are. Without that premise the contract states only `hasPassword == !!hash`.
- The DTO validation pipes (`fileSize >= 1`, `totalParts >= 1`, `downloadLimit >= 1`, password length >= 4) run before the services. They are not enforced. The model admits zero and empty values, so the truthiness checks stay visible.
- The object-store adapter (s3.service.ts) is not part of this model. It is the `ObjectStore` parameter. `initiate` may return no id. An error thrown by `initiateMultipartUpload` after the record is inserted is not modelled; only a missing id is. An error raised by any other call is passed on as an Upstream error. Signing never fails.
- Errors raised by the relational store itself are modelled with approximate messages (kind StoreError). These are an update or delete of a missing row and a violated foreign key.
- `Packages.AddFile`: when both the file and the package are missing, the model reports the missing file. The store's own precedence between those two errors is not modelled.
- The schema file is not part of this model. The cascade from a file to its links and their logs follows the comment in admin.service.ts:92. The default user role is assumed to be USER.
- `File.uploaderId` is stored as given. The model does not enforce its foreign key to users.
- `AccessLogs.Log`, `AccessLogs.FindAll`: the entries are returned without the nested link and file that the queries `include`.
- `Admin.GetFiles`: the per-link selection (`_count` of access logs, the token) is fetched but not returned by the mapping. Only the two aggregates are modelled.
- `Admin.MatchingFiles`: case is folded for the ASCII letters A-Z only. The store's `mode: 'insensitive'` (ILIKE on PostgreSQL) also folds non-ASCII letters by the database locale. So a search for "ä" finds "Ärger.pdf" in the store but not in the model.
- `AccessLogs.FindAll`, `Admin.GetFiles`, `Admin.GetLogs`: `skip` and `take` are modelled as absent or non-negative. The controllers pass `parseInt` of the query string, so a negative number or NaN can reach the store. The store rejects a negative `skip` or a NaN, and it reads a negative `take` as a window counted back from the end. The model does not capture these inputs.
- Rows with equal `createdAt` are ordered in one fixed way. The store leaves that order unspecified.
- These operations are not modelled: `findAll` of share links, files and packages; `findById` of packages; and `getDownloadUrl` of files. They are plain reads with no logic beyond a lookup.
- `initUpload` fails with a plain `Error` (HTTP 500) when no upload id comes back, not with NotFound. The model follows the code.
- Controllers, modules, configuration, the seed script, e-mail, the cron registration and the web client are not modelled.
