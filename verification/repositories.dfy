/** The repositories collection (src/lib/db/repositories.ts) as a finite map
    from `_id` to record. The collection keeps `github_repo_id` unique
    (src/lib/db/schemas.ts:82); `GithubIdsUnique` is that invariant. */
module Repositories {
  import opened Wrappers
  import opened Commits

  /** The fields a caller supplies when connecting a repository
      (src/lib/db/repositories.ts:13-21). */
  datatype RepoData = RepoData(
    userId: string,
    repoName: string,
    repoFullName: string,
    repoUrl: string,
    githubRepoId: int,
    defaultBranch: string,
    isPrivate: bool)

  /** `RepositoryDocument` without its `_id` (src/lib/db/schemas.ts:23-42). */
  datatype RepoRecord = RepoRecord(
    userId: string,
    repoName: string,
    repoFullName: string,
    repoUrl: string,
    githubRepoId: int,
    defaultBranch: string,
    isPrivate: bool,
    connectedAt: Instant,
    lastSyncAt: Option<Instant>,
    webhookId: Option<string>)

  type RepoStore = map<string, RepoRecord>

  predicate GithubIdsUnique(st: RepoStore) {
    forall a, b :: a in st && b in st && st[a].githubRepoId == st[b].githubRepoId ==> a == b
  }

  /** `createRepository`: inserts the supplied fields under the fresh id
      `id`, connected now and never synced. */
  function CreateRepository(st: RepoStore, data: RepoData, id: string, now: Instant): (r: (RepoStore, RepoRecord))
    requires id !in st
    ensures r.0.Keys == st.Keys + {id} && r.0[id] == r.1
    ensures forall other :: other in st ==> r.0[other] == st[other]
    ensures r.1.userId == data.userId && r.1.githubRepoId == data.githubRepoId
    ensures r.1.repoName == data.repoName && r.1.repoFullName == data.repoFullName && r.1.repoUrl == data.repoUrl
    ensures r.1.defaultBranch == data.defaultBranch && r.1.isPrivate == data.isPrivate
    ensures r.1.connectedAt == now && r.1.lastSyncAt == None && r.1.webhookId == None
  {
    var rec := RepoRecord(data.userId, data.repoName, data.repoFullName, data.repoUrl,
      data.githubRepoId, data.defaultBranch, data.isPrivate, now, None, None);
    (st[id := rec], rec)
  }

  /** `getRepositoryByGithubId`: the id of the one record with this GitHub id. */
  function RepositoryByGithubId(st: RepoStore, githubRepoId: int): (r: Option<string>)
    requires GithubIdsUnique(st)
    ensures r.Some? <==> exists id :: id in st && st[id].githubRepoId == githubRepoId
    ensures r.Some? ==> r.value in st && st[r.value].githubRepoId == githubRepoId
  {
    if id :| id in st && st[id].githubRepoId == githubRepoId then Some(id) else None
  }

  /** `getRepositoryById`. */
  function RepositoryById(st: RepoStore, id: string): (r: Option<RepoRecord>)
    ensures r.Some? <==> id in st
    ensures r.Some? ==> r.value == st[id]
  {
    if id in st then Some(st[id]) else None
  }

  /** `Partial<Omit<RepositoryDocument, '_id' | 'user_id' | 'connected_at'>>`:
      the fields an update may set. The owner and the connection time are
      not among them. */
  datatype RepoPatch = RepoPatch(
    repoName: Option<string>,
    repoFullName: Option<string>,
    repoUrl: Option<string>,
    githubRepoId: Option<int>,
    defaultBranch: Option<string>,
    isPrivate: Option<bool>,
    lastSyncAt: Option<Instant>,
    webhookId: Option<string>)

  function ApplyRepoPatch(rec: RepoRecord, p: RepoPatch): RepoRecord {
    RepoRecord(
      rec.userId,
      p.repoName.GetOr(rec.repoName),
      p.repoFullName.GetOr(rec.repoFullName),
      p.repoUrl.GetOr(rec.repoUrl),
      p.githubRepoId.GetOr(rec.githubRepoId),
      p.defaultBranch.GetOr(rec.defaultBranch),
      p.isPrivate.GetOr(rec.isPrivate),
      rec.connectedAt,
      if p.lastSyncAt.Some? then p.lastSyncAt else rec.lastSyncAt,
      if p.webhookId.Some? then p.webhookId else rec.webhookId)
  }

  /** `updateRepository`: `findOneAndUpdate` with `returnDocument: 'after'`;
      `None` when no record has this id. */
  function UpdateRepository(st: RepoStore, id: string, p: RepoPatch): (r: (RepoStore, Option<RepoRecord>))
    ensures r.1.Some? <==> id in st
    ensures r.0.Keys == st.Keys
    ensures forall other :: other in st && other != id ==> r.0[other] == st[other]
    ensures id in st ==> r.1 == Some(r.0[id]) && r.0[id] == ApplyRepoPatch(st[id], p)
    ensures id in st ==> r.0[id].userId == st[id].userId && r.0[id].connectedAt == st[id].connectedAt
  {
    if id in st then
      var rec := ApplyRepoPatch(st[id], p);
      (st[id := rec], Some(rec))
    else (st, None)
  }

  /** An update that leaves the GitHub id alone keeps GitHub ids unique. */
  lemma UpdateKeepsGithubIds(st: RepoStore, id: string, p: RepoPatch)
    requires GithubIdsUnique(st) && p.githubRepoId.None?
    ensures GithubIdsUnique(UpdateRepository(st, id, p).0)
  {
  }

  /** `updateRepositorySync`: stamps `last_sync_at` and changes nothing else. */
  function UpdateRepositorySync(st: RepoStore, id: string, now: Instant): (r: (RepoStore, Option<RepoRecord>))
    ensures r.1.Some? <==> id in st
    ensures r.0.Keys == st.Keys
    ensures forall other :: other in st && other != id ==> r.0[other] == st[other]
    ensures id in st ==> r.1 == Some(r.0[id]) && r.0[id] == st[id].(lastSyncAt := Some(now))
  {
    UpdateRepository(st, id, RepoPatch(None, None, None, None, None, None, Some(now), None))
  }

  /** `findOrCreateRepository`: keyed by the GitHub id. A known repository
      gets its five descriptive fields refreshed in place; its owner, GitHub
      id, connection time and sync state stay, even when another user
      connects it. An unknown one is created under the fresh id `id`. */
  function FindOrCreateRepository(st: RepoStore, data: RepoData, id: string, now: Instant): (r: (RepoStore, RepoRecord))
    requires GithubIdsUnique(st) && id !in st
    ensures GithubIdsUnique(r.0)
    ensures r.1.githubRepoId == data.githubRepoId
    ensures r.1.repoName == data.repoName && r.1.repoFullName == data.repoFullName && r.1.repoUrl == data.repoUrl
    ensures r.1.defaultBranch == data.defaultBranch && r.1.isPrivate == data.isPrivate
    ensures exists k :: k in r.0 && r.0[k] == r.1
  {
    match RepositoryByGithubId(st, data.githubRepoId)
    case Some(existing) =>
      var u := UpdateRepository(st, existing, RepoPatch(
        Some(data.repoName), Some(data.repoFullName), Some(data.repoUrl), None,
        Some(data.defaultBranch), Some(data.isPrivate), None, None));
      (u.0, u.1.value)
    case None =>
      CreateRepository(st, data, id, now)
  }

  /** When the GitHub id is known, the existing record is updated and no
      record is added; what the first connection recorded is kept. */
  lemma FindOrCreateExisting(st: RepoStore, data: RepoData, id: string, now: Instant, existing: string)
    requires GithubIdsUnique(st) && id !in st
    requires existing in st && st[existing].githubRepoId == data.githubRepoId
    ensures FindOrCreateRepository(st, data, id, now).0.Keys == st.Keys
    ensures forall other :: other in st && other != existing ==> FindOrCreateRepository(st, data, id, now).0[other] == st[other]
    ensures FindOrCreateRepository(st, data, id, now).1 == FindOrCreateRepository(st, data, id, now).0[existing]
    ensures FindOrCreateRepository(st, data, id, now).1
         == st[existing].(repoName := data.repoName, repoFullName := data.repoFullName, repoUrl := data.repoUrl,
                          defaultBranch := data.defaultBranch, isPrivate := data.isPrivate)
  {
    assert RepositoryByGithubId(st, data.githubRepoId) == Some(existing);
  }

  /** When the GitHub id is new, exactly one record is added, holding the
      supplied fields, connected now. */
  lemma FindOrCreateNew(st: RepoStore, data: RepoData, id: string, now: Instant)
    requires GithubIdsUnique(st) && id !in st
    requires forall k :: k in st ==> st[k].githubRepoId != data.githubRepoId
    ensures FindOrCreateRepository(st, data, id, now) == CreateRepository(st, data, id, now)
    ensures FindOrCreateRepository(st, data, id, now).1.userId == data.userId
    ensures FindOrCreateRepository(st, data, id, now).1.connectedAt == now
  {
  }

  /** Connecting the same repository twice leaves a single record for it. */
  lemma ReconnectAddsNothing(st: RepoStore, data: RepoData, id: string, id': string, now: Instant, later: Instant)
    requires GithubIdsUnique(st) && id !in st
    requires id' !in FindOrCreateRepository(st, data, id, now).0
    ensures FindOrCreateRepository(FindOrCreateRepository(st, data, id, now).0, data, id', later).0.Keys
         == FindOrCreateRepository(st, data, id, now).0.Keys
  {
    var st1 := FindOrCreateRepository(st, data, id, now).0;
    var k :| k in st1 && st1[k] == FindOrCreateRepository(st, data, id, now).1;
    FindOrCreateExisting(st1, data, id', later, k);
  }

  /** `deleteRepository`: removes the record and reports whether there was one. */
  function DeleteRepository(st: RepoStore, id: string): (r: (RepoStore, bool))
    ensures r.1 <==> id in st
    ensures r.0.Keys == st.Keys - {id}
    ensures forall other :: other in r.0 ==> r.0[other] == st[other]
  {
    (st - {id}, id in st)
  }

  /** Deleting what was just created restores the store. */
  lemma DeleteUndoesCreate(st: RepoStore, data: RepoData, id: string, now: Instant)
    requires id !in st
    ensures DeleteRepository(CreateRepository(st, data, id, now).0, id) == (st, true)
  {
    assert CreateRepository(st, data, id, now).0 - {id} == st;
  }

  // ---------------------------------------------------------------------------
  // getUserRepositories: find by owner, newest connection first
  // ---------------------------------------------------------------------------

  /** A record with its id, as the query returns it. */
  type Entry = (string, RepoRecord)

  /** Entries in order of non-increasing connection time. */
  predicate NewestFirst(rs: seq<Entry>) {
    forall i, j :: 0 <= i < j < |rs| ==> rs[i].1.connectedAt.millis >= rs[j].1.connectedAt.millis
  }

  /** Inserts `e` into a newest-first list before the first entry that is
      not newer than it. */
  function InsertNewest(e: Entry, rs: seq<Entry>): (r: seq<Entry>)
    requires NewestFirst(rs)
    ensures NewestFirst(r)
    ensures forall x :: x in r <==> x == e || x in rs
    ensures |r| == |rs| + 1
    decreases |rs|
  {
    if rs == [] || e.1.connectedAt.millis >= rs[0].1.connectedAt.millis then
      NewestCons(e, rs);
      [e] + rs
    else
      var rest := InsertNewest(e, rs[1..]);
      forall k | 0 <= k < |rest| ensures rs[0].1.connectedAt.millis >= rest[k].1.connectedAt.millis {
        if rest[k] != e {
          assert rest[k] in rs[1..];
        }
      }
      NewestCons(rs[0], rest);
      [rs[0]] + rest
  }

  /** An entry no older than every entry of a newest-first list may go in front. */
  lemma NewestCons(e: Entry, rs: seq<Entry>)
    requires NewestFirst(rs)
    requires forall k :: 0 <= k < |rs| ==> e.1.connectedAt.millis >= rs[k].1.connectedAt.millis
    ensures NewestFirst([e] + rs)
  {
    var r := [e] + rs;
    forall i, j | 0 <= i < j < |r| ensures r[i].1.connectedAt.millis >= r[j].1.connectedAt.millis {
      assert r[j] == rs[j - 1];
      if i > 0 {
        assert r[i] == rs[i - 1];
      }
    }
  }

  /** No id occurs twice. */
  predicate DistinctIds(rs: seq<Entry>) {
    forall i, j :: 0 <= i < j < |rs| ==> rs[i].0 != rs[j].0
  }

  lemma {:induction false} InsertKeepsDistinct(e: Entry, rs: seq<Entry>)
    requires NewestFirst(rs) && DistinctIds(rs)
    requires forall x :: x in rs ==> x.0 != e.0
    ensures DistinctIds(InsertNewest(e, rs))
    decreases |rs|
  {
    if !(rs == [] || e.1.connectedAt.millis >= rs[0].1.connectedAt.millis) {
      InsertKeepsDistinct(e, rs[1..]);
      var rest := InsertNewest(e, rs[1..]);
      assert forall x :: x in rest ==> x.0 != rs[0].0;
    }
  }

  /** `getUserRepositories`: every record owned by `userId`, each once,
      ordered by connection time, newest first. Ties come in an order the
      source leaves unspecified. */
  method UserRepositories(st: RepoStore, userId: string) returns (rs: seq<Entry>)
    ensures forall x :: x in rs ==> x.0 in st && x.1 == st[x.0] && x.1.userId == userId
    ensures forall id :: id in st && st[id].userId == userId ==> (id, st[id]) in rs
    ensures DistinctIds(rs)
    ensures NewestFirst(rs)
  {
    var todo := set id | id in st && st[id].userId == userId;
    rs := [];
    while todo != {}
      invariant forall x :: x in rs ==> x.0 in st && x.1 == st[x.0] && x.1.userId == userId && x.0 !in todo
      invariant NewestFirst(rs) && DistinctIds(rs)
      invariant forall id :: id in st && st[id].userId == userId ==> id in todo || (id, st[id]) in rs
      invariant forall id :: id in todo ==> id in st && st[id].userId == userId
      decreases |todo|
    {
      var id :| id in todo;
      InsertKeepsDistinct((id, st[id]), rs);
      rs := InsertNewest((id, st[id]), rs);
      todo := todo - {id};
    }
  }
}
