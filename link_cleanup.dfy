/** The background sweeper (link-cleanup.processor.ts): a job that deactivates links past
    their deadline in one bulk update, and a job that walks the active links with a
    download limit and deactivates those whose limit is used up, counting them. */
module LinkCleanup {
  import opened Common
  import opened Tables
  import opened Schema
  import opened ShareLinks

  // ---------------------------------------------------------------------------
  // Row-level effects
  // ---------------------------------------------------------------------------

  /** The `where` of `expireLinks`: active, with a deadline at or before `now`. */
  predicate DueToExpire(l: ShareLink, now: nat) {
    l.isActive && l.expireAt.Some? && l.expireAt.value <= now
  }

  /** What `lockExceededLinks` deactivates: active, with a truthy limit that is used up. */
  predicate ShouldLock(l: ShareLink) {
    l.isActive && LimitReached(l)
  }

  /** The `where` of the `findMany` in `lockExceededLinks`: active with a non-null limit. */
  predicate LockCandidate(l: ShareLink) {
    l.isActive && l.downloadLimit.Some?
  }

  function ExpireRow(l: ShareLink, now: nat): ShareLink {
    if DueToExpire(l, now) then l.(isActive := false) else l
  }

  function LockRow(l: ShareLink): ShareLink {
    if ShouldLock(l) then l.(isActive := false) else l
  }

  /** The table after `expireLinks` at time `now`. */
  function ExpireAll(links: seq<ShareLink>, now: nat): (r: seq<ShareLink>)
    ensures |r| == |links|
    ensures forall i :: 0 <= i < |r| ==> r[i].(isActive := links[i].isActive) == links[i]
    ensures forall i :: 0 <= i < |r| ==> r[i].isActive == (links[i].isActive && !DueToExpire(links[i], now))
    ensures forall i :: 0 <= i < |r| ==> !DueToExpire(r[i], now)
  {
    seq(|links|, i requires 0 <= i < |links| => ExpireRow(links[i], now))
  }

  /** The table after `lockExceededLinks`. */
  function LockAll(links: seq<ShareLink>): (r: seq<ShareLink>)
    ensures |r| == |links|
    ensures forall i :: 0 <= i < |r| ==> r[i].(isActive := links[i].isActive) == links[i]
    ensures forall i :: 0 <= i < |r| ==> r[i].isActive == (links[i].isActive && !ShouldLock(links[i]))
    ensures forall i :: 0 <= i < |r| ==> !ShouldLock(r[i])
  {
    seq(|links|, i requires 0 <= i < |links| => LockRow(links[i]))
  }

  // ---------------------------------------------------------------------------
  // Counting
  // ---------------------------------------------------------------------------

  /** The `count` that `updateMany` reports: the rows its `where` matches. */
  function CountDue(links: seq<ShareLink>, now: nat): (n: nat)
    ensures n <= |links|
  {
    if links == [] then 0
    else (if DueToExpire(links[0], now) then 1 else 0) + CountDue(links[1..], now)
  }

  /** The number of links a sweep turned from active to inactive. */
  function Flipped(before: seq<ShareLink>, after: seq<ShareLink>): (n: nat)
    requires |before| == |after|
    ensures n <= |before|
  {
    if before == [] then 0
    else (if before[0].isActive && !after[0].isActive then 1 else 0) + Flipped(before[1..], after[1..])
  }

  /** The count `expireLinks` reports is the number of links it deactivated. */
  lemma {:induction false} ExpireCountIsFlipped(links: seq<ShareLink>, now: nat)
    ensures Flipped(links, ExpireAll(links, now)) == CountDue(links, now)
  {
    if links != [] {
      assert ExpireAll(links, now)[1..] == ExpireAll(links[1..], now);
      ExpireCountIsFlipped(links[1..], now);
    }
  }

  /** The links `lockExceededLinks` deactivates are exactly the links it counts. */
  lemma {:induction false} LockCountIsFlipped(links: seq<ShareLink>)
    ensures Flipped(links, LockAll(links)) == Count(links, ShouldLock)
  {
    if links != [] {
      assert LockAll(links)[1..] == LockAll(links[1..]);
      assert links == [links[0]] + links[1..];
      CountAppend([links[0]], links[1..], ShouldLock);
      LockCountIsFlipped(links[1..]);
    }
  }

  /** Counting the used-up links among the fetched candidates counts every link to lock. */
  lemma {:induction false} CandidatesCoverLocks(links: seq<ShareLink>)
    ensures Count(Where(links, LockCandidate), LimitReached) == Count(links, ShouldLock)
  {
    if links != [] {
      var head := if LockCandidate(links[0]) then [links[0]] else [];
      assert Where(links, LockCandidate) == head + Where(links[1..], LockCandidate);
      CountAppend(head, Where(links[1..], LockCandidate), LimitReached);
      assert links == [links[0]] + links[1..];
      CountAppend([links[0]], links[1..], ShouldLock);
      CandidatesCoverLocks(links[1..]);
    }
  }

  // ---------------------------------------------------------------------------
  // The jobs
  // ---------------------------------------------------------------------------

  /** `expireLinks()`: one `updateMany`; returns the count it logs. */
  method ExpireLinks(db: Database, now: nat) returns (count: nat)
    requires db.Valid()
    modifies db
    ensures db.Valid()
    ensures db.links == ExpireAll(old(db.links), now)
    ensures count == CountDue(old(db.links), now)
    ensures count == Flipped(old(db.links), db.links)
    ensures db.files == old(db.files) && db.logs == old(db.logs)
    ensures db.users == old(db.users) && db.packages == old(db.packages)
  {
    count := CountDue(db.links, now);
    ExpireCountIsFlipped(db.links, now);
    LinkRowsRewritten(db.files, db.links, ExpireAll(db.links, now), db.logs, db.users, db.packages);
    db.links := ExpireAll(db.links, now);
  }

  /** The fetched candidates, with their ids still unique. */
  function Candidates(links: seq<ShareLink>): (r: seq<ShareLink>)
    ensures forall l | l in r :: l in links && LockCandidate(l)
    ensures forall l | l in links && LockCandidate(l) :: l in r
    ensures Distinct(links, LinkId) ==> Distinct(r, LinkId)
  {
    WhereDistinct(links, LockCandidate, LinkId);
    Where(links, LockCandidate)
  }

  /** The ids of the used-up links among `s`. */
  function ReachedIds(s: seq<ShareLink>): (ids: set<string>)
    ensures forall l | l in s && LimitReached(l) :: l.id in ids
  {
    set l | l in s && LimitReached(l) :: l.id
  }

  lemma ReachedIdsAppend(s: seq<ShareLink>, l: ShareLink)
    ensures ReachedIds(s + [l]) == ReachedIds(s) + (if LimitReached(l) then {l.id} else {})
  {
    assert forall x | x in s + [l] :: x in s || x == l;
  }

  /** The table with the links whose id is in `ids` switched off. */
  function Deactivated(links: seq<ShareLink>, ids: set<string>): (r: seq<ShareLink>)
    ensures |r| == |links|
  {
    seq(|links|, i requires 0 <= i < |links| =>
      if links[i].id in ids then links[i].(isActive := false) else links[i])
  }

  /** One more `update({ where: { id }, data: { isActive: false } })`. */
  lemma DeactivateOneMore(links: seq<ShareLink>, ids: set<string>, id: string)
    ensures MarkInactive(Deactivated(links, ids), id) == Deactivated(links, ids + {id})
  {
    var a := MarkInactive(Deactivated(links, ids), id);
    var b := Deactivated(links, ids + {id});
    forall i | 0 <= i < |links| ensures a[i] == b[i] {
      assert a[i].(isActive := Deactivated(links, ids)[i].isActive) == Deactivated(links, ids)[i];
    }
  }

  /** Switching off the used-up candidates by id is the sweep `LockAll`. */
  lemma LockedCandidatesAreLockAll(links: seq<ShareLink>)
    requires Distinct(links, LinkId)
    ensures Deactivated(links, ReachedIds(Candidates(links))) == LockAll(links)
  {
    var ids := ReachedIds(Candidates(links));
    forall i | 0 <= i < |links| ensures Deactivated(links, ids)[i] == LockAll(links)[i] {
      var l := links[i];
      if ShouldLock(l) {
        assert l in links;
      } else if l.id in ids {
        var c :| c in Candidates(links) && LimitReached(c) && c.id == l.id;
        var m :| 0 <= m < |links| && links[m] == c;
        assert LinkId(links[m]) == LinkId(links[i]);
      }
    }
  }

  /** The tallies kept while walking the candidates grow by the next one. */
  lemma TallyStep(fetched: seq<ShareLink>, k: nat)
    requires k < |fetched|
    ensures Count(fetched[..k + 1], LimitReached)
         == Count(fetched[..k], LimitReached) + (if LimitReached(fetched[k]) then 1 else 0)
    ensures ReachedIds(fetched[..k + 1])
         == ReachedIds(fetched[..k]) + (if LimitReached(fetched[k]) then {fetched[k].id} else {})
  {
    assert fetched[..k + 1] == fetched[..k] + [fetched[k]];
    CountAppend(fetched[..k], [fetched[k]], LimitReached);
    ReachedIdsAppend(fetched[..k], fetched[k]);
  }

  /** What walking all the candidates achieves, stated on the whole table. */
  lemma LockSweepTotals(links: seq<ShareLink>)
    requires Distinct(links, LinkId)
    ensures Deactivated(links, ReachedIds(Candidates(links))) == LockAll(links)
    ensures Count(Candidates(links), LimitReached) == Count(links, ShouldLock)
    ensures Count(links, ShouldLock) == Flipped(links, LockAll(links))
  {
    LockedCandidatesAreLockAll(links);
    CandidatesCoverLocks(links);
    LockCountIsFlipped(links);
  }

  /** The `for (const link of links)` loop of `lockExceededLinks`: deactivates, by id,
      each fetched link whose limit is used up, and counts them. */
  method LockFetched(db: Database, fetched: seq<ShareLink>) returns (lockedCount: nat)
    modifies db
    ensures db.links == Deactivated(old(db.links), ReachedIds(fetched))
    ensures lockedCount == Count(fetched, LimitReached)
    ensures db.files == old(db.files) && db.logs == old(db.logs)
    ensures db.users == old(db.users) && db.packages == old(db.packages)
  {
    ghost var links0 := db.links;
    lockedCount := 0;
    ghost var locked: set<string> := {};
    assert Deactivated(links0, {}) == links0;
    for k := 0 to |fetched|
      invariant db.files == old(db.files) && db.logs == old(db.logs)
      invariant db.users == old(db.users) && db.packages == old(db.packages)
      invariant db.links == Deactivated(links0, locked)
      invariant locked == ReachedIds(fetched[..k])
      invariant lockedCount == Count(fetched[..k], LimitReached)
    {
      var l := fetched[k];
      TallyStep(fetched, k);
      if TruthyNat(l.downloadLimit) && l.currentDownloadCount >= l.downloadLimit.value {
        DeactivateOneMore(links0, locked, l.id);
        db.links := MarkInactive(db.links, l.id);
        lockedCount := lockedCount + 1;
        locked := locked + {l.id};
      }
    }
    assert fetched[..|fetched|] == fetched;
  }

  /** `lockExceededLinks()`: fetch the candidates, then deactivate the used-up ones; returns
      the count it logs. */
  method LockExceededLinks(db: Database) returns (lockedCount: nat)
    requires db.Valid()
    modifies db
    ensures db.Valid()
    ensures db.links == LockAll(old(db.links))
    ensures lockedCount == Count(old(db.links), ShouldLock)
    ensures lockedCount == Flipped(old(db.links), db.links)
    ensures lockedCount <= |Candidates(old(db.links))|
    ensures db.files == old(db.files) && db.logs == old(db.logs)
    ensures db.users == old(db.users) && db.packages == old(db.packages)
  {
    var fetched := Candidates(db.links);
    LockSweepTotals(db.links);
    LinkRowsRewritten(db.files, db.links, LockAll(db.links), db.logs, db.users, db.packages);
    lockedCount := LockFetched(db, fetched);
  }

  /** The outcome `process` logs. */
  datatype JobReport = Expired(count: nat) | Locked(count: nat) | UnknownJob(name: string)

  /** `process(job)`: dispatch on the job name. */
  method Process(db: Database, name: string, now: nat) returns (report: JobReport)
    requires db.Valid()
    modifies db
    ensures db.Valid()
    ensures name == "expire-links" ==>
      db.links == ExpireAll(old(db.links), now) && report == Expired(CountDue(old(db.links), now))
    ensures name == "lock-exceeded-links" ==>
      db.links == LockAll(old(db.links)) && report == Locked(Count(old(db.links), ShouldLock))
    ensures name != "expire-links" && name != "lock-exceeded-links" ==>
      db.links == old(db.links) && report == UnknownJob(name)
    ensures db.files == old(db.files) && db.logs == old(db.logs)
    ensures db.users == old(db.users) && db.packages == old(db.packages)
  {
    if name == "expire-links" {
      var n := ExpireLinks(db, now);
      report := Expired(n);
    } else if name == "lock-exceeded-links" {
      var n := LockExceededLinks(db);
      report := Locked(n);
    } else {
      report := UnknownJob(name);
    }
  }

  // ---------------------------------------------------------------------------
  // Properties of the sweeps
  // ---------------------------------------------------------------------------

  lemma {:induction false} NothingDueAfterExpire(links: seq<ShareLink>, now: nat)
    ensures CountDue(ExpireAll(links, now), now) == 0
  {
    if links != [] {
      assert ExpireAll(links, now)[1..] == ExpireAll(links[1..], now);
      NothingDueAfterExpire(links[1..], now);
    }
  }

  /** A second `expireLinks` at the same time changes nothing and reports 0. */
  lemma ExpireIdempotent(links: seq<ShareLink>, now: nat)
    ensures ExpireAll(ExpireAll(links, now), now) == ExpireAll(links, now)
    ensures CountDue(ExpireAll(links, now), now) == 0
  {
    var once := ExpireAll(links, now);
    assert forall i :: 0 <= i < |once| ==> ExpireAll(once, now)[i] == once[i];
    NothingDueAfterExpire(links, now);
  }

  /** A second `lockExceededLinks` changes nothing and reports 0. */
  lemma LockIdempotent(links: seq<ShareLink>)
    ensures LockAll(LockAll(links)) == LockAll(links)
    ensures Count(LockAll(links), ShouldLock) == 0
  {
    var once := LockAll(links);
    assert forall i :: 0 <= i < |once| ==> LockAll(once)[i] == once[i];
    forall l | l in once ensures !ShouldLock(l) {
      var i :| 0 <= i < |once| && once[i] == l;
    }
    CountNone(once, ShouldLock);
  }

  /** The sweeps only ever switch links off, and leave every other column alone. */
  lemma SweepsOnlyDeactivate(links: seq<ShareLink>, now: nat, i: nat)
    requires i < |links|
    ensures var e := ExpireAll(links, now)[i];
      && (e.isActive ==> links[i].isActive)
      && e.currentDownloadCount == links[i].currentDownloadCount
      && e.downloadLimit == links[i].downloadLimit && e.expireAt == links[i].expireAt
    ensures var k := LockAll(links)[i];
      && (k.isActive ==> links[i].isActive)
      && k.currentDownloadCount == links[i].currentDownloadCount
      && k.downloadLimit == links[i].downloadLimit && k.expireAt == links[i].expireAt
  {
    assert ExpireAll(links, now)[i].(isActive := links[i].isActive) == links[i];
    assert LockAll(links)[i].(isActive := links[i].isActive) == links[i];
  }

  /** The sweep and `verify` disagree at exactly one instant: a link whose deadline is
      `now` is deactivated by the sweep although `verify` and `download` still let it
      through. Every link they refuse as expired, the sweep deactivates. */
  lemma ExpiryBoundary(l: ShareLink, now: nat)
    ensures (DueToExpire(l, now) && !IsExpired(l, now)) <==> (l.isActive && l.expireAt == Some(now))
    ensures l.isActive && IsExpired(l, now) ==> DueToExpire(l, now)
  {
  }

  /** A concrete link at its deadline: admitted before the sweep, refused after it. */
  lemma ExpiryBoundaryExample(now: nat)
    ensures var l := ShareLink("id", "token", "file", None, Some(now), None, 0, true, 0);
      && AccessDenial(l, now) == None
      && AccessDenial(ExpireRow(l, now), now) == Some(LinkInactive)
  {
  }

  /** Locking changes no access decision: only links already refused for their limit are
      locked (their refusal message becomes "This link is no longer active"). */
  lemma LockKeepsDecisions(l: ShareLink, now: nat)
    ensures AccessDenial(LockRow(l), now).None? <==> AccessDenial(l, now).None?
    ensures LockRow(l) != l ==> AccessDenial(l, now) != None && AccessDenial(LockRow(l), now) == Some(LinkInactive)
  {
  }
}
