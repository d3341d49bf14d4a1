/** The changelog and commit collections (src/lib/db/changelogs.ts), as
    finite maps. A changelog is stored under its `_id`; a stored commit under
    its `commit_hash`, which the collection keeps unique
    (src/lib/db/schemas.ts:96). Dates are `Instant`s supplied by the caller in
    place of `new Date()`, and fresh ids in place of the driver's. */
module Changelogs {
  import opened Wrappers
  import opened Commits
  import opened Slugs

  /** `CreateChangelogData` (src/lib/db/changelogs.ts:6-15). */
  datatype NewChangelog = NewChangelog(
    repoId: string,
    title: string,
    version: Option<string>,
    content: string,
    commitHashes: seq<string>,
    fromCommit: Option<string>,
    toCommit: string,
    isPublished: Option<bool>)

  /** `ChangelogDocument` without its `_id` (src/lib/db/schemas.ts:44-57). */
  datatype ChangelogRecord = ChangelogRecord(
    repoId: string,
    title: string,
    version: Option<string>,
    content: string,
    commitHashes: seq<string>,
    publicSlug: string,
    fromCommit: Option<string>,
    toCommit: string,
    isPublished: bool,
    createdAt: Instant,
    updatedAt: Instant)

  type ChangelogStore = map<string, ChangelogRecord>

  /** The public slugs in use. */
  function SlugsIn(st: ChangelogStore): set<string> {
    set id | id in st :: st[id].publicSlug
  }

  /** No two changelogs share a public slug (the collection's unique index,
      src/lib/db/schemas.ts:89, which the uniqueness loop respects). */
  predicate SlugsUnique(st: ChangelogStore) {
    forall a, b :: a in st && b in st && st[a].publicSlug == st[b].publicSlug ==> a == b
  }

  // ---------------------------------------------------------------------------
  // createChangelog
  // ---------------------------------------------------------------------------

  /** `createChangelog`: derives the base slug from the title, takes the
      first free candidate, and inserts the record under the fresh id `id`.
      Returns the new store and the record returned to the caller. */
  function CreateChangelog(st: ChangelogStore, data: NewChangelog, id: string, now: Instant): (r: (ChangelogStore, ChangelogRecord))
    requires id !in st
    ensures r.0.Keys == st.Keys + {id} && r.0[id] == r.1
    ensures forall other :: other in st ==> r.0[other] == st[other]
    ensures r.1.repoId == data.repoId && r.1.title == data.title && r.1.version == data.version
    ensures r.1.content == data.content && r.1.commitHashes == data.commitHashes
    ensures r.1.fromCommit == data.fromCommit && r.1.toCommit == data.toCommit
    ensures r.1.isPublished <==> data.isPublished == Some(true)
    ensures r.1.createdAt == now && r.1.updatedAt == now
    ensures r.1.publicSlug !in SlugsIn(st)
    ensures exists k: nat :: r.1.publicSlug == Candidate(Slugify(data.title), k) && FirstFree(Slugify(data.title), SlugsIn(st), k)
    ensures SlugsUnique(st) ==> SlugsUnique(r.0)
  {
    var base := Slugify(data.title);
    var k := SlugNumber(base, SlugsIn(st));
    var rec := ChangelogRecord(
      data.repoId, data.title, data.version, data.content, data.commitHashes,
      Candidate(base, k), data.fromCommit, data.toCommit,
      data.isPublished.GetOr(false), now, now);
    (st[id := rec], rec)
  }

  /** `getChangelogById`. */
  function ChangelogById(st: ChangelogStore, id: string): (r: Option<ChangelogRecord>)
    ensures r.Some? <==> id in st
    ensures r.Some? ==> r.value == st[id]
  {
    if id in st then Some(st[id]) else None
  }

  /** `getChangelogBySlug`: with slugs unique, the one changelog using `slug`. */
  function ChangelogBySlug(st: ChangelogStore, slug: string): (r: Option<ChangelogRecord>)
    requires SlugsUnique(st)
    ensures r.Some? <==> slug in SlugsIn(st)
    ensures r.Some? ==> exists id :: id in st && st[id] == r.value && r.value.publicSlug == slug
  {
    if id :| id in st && st[id].publicSlug == slug then Some(st[id]) else None
  }

  /** A changelog just created is found under its id and under its slug. */
  lemma CreatedIsFound(st: ChangelogStore, data: NewChangelog, id: string, now: Instant)
    requires id !in st && SlugsUnique(st)
    ensures ChangelogById(CreateChangelog(st, data, id, now).0, id) == Some(CreateChangelog(st, data, id, now).1)
    ensures SlugsUnique(CreateChangelog(st, data, id, now).0)
    ensures ChangelogBySlug(CreateChangelog(st, data, id, now).0, CreateChangelog(st, data, id, now).1.publicSlug)
         == Some(CreateChangelog(st, data, id, now).1)
  {
    var r := CreateChangelog(st, data, id, now);
    assert r.1.publicSlug in SlugsIn(r.0);
  }

  // ---------------------------------------------------------------------------
  // updateChangelog, publishChangelog, unpublishChangelog, deleteChangelog
  // ---------------------------------------------------------------------------

  /** `Partial<ChangelogDocument>`: each field the update sets, `None` where
      the key is absent. `updated_at` is always overwritten and `_id` is
      immutable, so neither is a field here. */
  datatype ChangelogPatch = ChangelogPatch(
    repoId: Option<string>,
    title: Option<string>,
    version: Option<string>,
    content: Option<string>,
    commitHashes: Option<seq<string>>,
    publicSlug: Option<string>,
    fromCommit: Option<string>,
    toCommit: Option<string>,
    isPublished: Option<bool>,
    createdAt: Option<Instant>)

  function PublishedPatch(flag: bool): ChangelogPatch {
    ChangelogPatch(None, None, None, None, None, None, None, None, Some(flag), None)
  }

  /** The `$set` of `updateChangelog`: the patch's fields, and `updated_at`. */
  function ApplyPatch(rec: ChangelogRecord, p: ChangelogPatch, now: Instant): ChangelogRecord {
    ChangelogRecord(
      p.repoId.GetOr(rec.repoId),
      p.title.GetOr(rec.title),
      if p.version.Some? then p.version else rec.version,
      p.content.GetOr(rec.content),
      p.commitHashes.GetOr(rec.commitHashes),
      p.publicSlug.GetOr(rec.publicSlug),
      if p.fromCommit.Some? then p.fromCommit else rec.fromCommit,
      p.toCommit.GetOr(rec.toCommit),
      p.isPublished.GetOr(rec.isPublished),
      p.createdAt.GetOr(rec.createdAt),
      now)
  }

  /** `updateChangelog`: applies the patch to the record with this id, if
      any, and reports `modifiedCount > 0`, which holds exactly when the
      record exists and its stored value changed. */
  function UpdateChangelog(st: ChangelogStore, id: string, p: ChangelogPatch, now: Instant): (r: (ChangelogStore, bool))
    ensures r.0.Keys == st.Keys
    ensures forall other :: other in st && other != id ==> r.0[other] == st[other]
    ensures id in st ==> r.0[id] == ApplyPatch(st[id], p, now) && r.0[id].updatedAt == now
    ensures r.1 <==> id in st && r.0[id] != st[id]
  {
    if id in st then
      var rec := ApplyPatch(st[id], p, now);
      (st[id := rec], rec != st[id])
    else (st, false)
  }

  /** `publishChangelog`: sets the flag and the update time and nothing
      else; reports a change unless the record is missing or was already
      published with this very update time. */
  function PublishChangelog(st: ChangelogStore, id: string, now: Instant): (r: (ChangelogStore, bool))
    ensures r.0.Keys == st.Keys
    ensures forall other :: other in st && other != id ==> r.0[other] == st[other]
    ensures id in st ==> r.0[id] == st[id].(isPublished := true, updatedAt := now)
    ensures r.1 <==> id in st && (!st[id].isPublished || st[id].updatedAt != now)
  {
    UpdateChangelog(st, id, PublishedPatch(true), now)
  }

  /** `unpublishChangelog`: as `publishChangelog`, clearing the flag. */
  function UnpublishChangelog(st: ChangelogStore, id: string, now: Instant): (r: (ChangelogStore, bool))
    ensures r.0.Keys == st.Keys
    ensures forall other :: other in st && other != id ==> r.0[other] == st[other]
    ensures id in st ==> r.0[id] == st[id].(isPublished := false, updatedAt := now)
    ensures r.1 <==> id in st && (st[id].isPublished || st[id].updatedAt != now)
  {
    UpdateChangelog(st, id, PublishedPatch(false), now)
  }

  /** Unpublishing a freshly published draft, with the draft's old update
      time, gives back the store exactly. */
  lemma PublishRoundTrip(st: ChangelogStore, id: string, now: Instant)
    requires id in st && !st[id].isPublished
    ensures UnpublishChangelog(PublishChangelog(st, id, now).0, id, st[id].updatedAt).0 == st
  {
    var st1 := PublishChangelog(st, id, now).0;
    var st2 := UnpublishChangelog(st1, id, st[id].updatedAt).0;
    assert st2[id] == st[id];
  }

  /** Publishing leaves every slug where it was, so slugs stay unique. */
  lemma PublishKeepsSlugs(st: ChangelogStore, id: string, now: Instant, flag: bool)
    ensures SlugsIn(UpdateChangelog(st, id, PublishedPatch(flag), now).0) == SlugsIn(st)
    ensures SlugsUnique(st) ==> SlugsUnique(UpdateChangelog(st, id, PublishedPatch(flag), now).0)
  {
    UpdateKeepsSlugs(st, id, PublishedPatch(flag), now);
  }

  /** An update that leaves the slug alone keeps slugs unique. */
  lemma UpdateKeepsSlugs(st: ChangelogStore, id: string, p: ChangelogPatch, now: Instant)
    requires p.publicSlug.None?
    ensures SlugsIn(UpdateChangelog(st, id, p, now).0) == SlugsIn(st)
    ensures SlugsUnique(st) ==> SlugsUnique(UpdateChangelog(st, id, p, now).0)
  {
    var st1 := UpdateChangelog(st, id, p, now).0;
    assert forall x :: x in st ==> st1[x].publicSlug == st[x].publicSlug;
    forall s | s in SlugsIn(st) ensures s in SlugsIn(st1) {
      var x :| x in st && st[x].publicSlug == s;
      assert st1[x].publicSlug == s;
    }
  }

  /** `deleteChangelog`: removes the record and reports whether there was one. */
  function DeleteChangelog(st: ChangelogStore, id: string): (r: (ChangelogStore, bool))
    ensures r.1 <==> id in st
    ensures r.0.Keys == st.Keys - {id}
    ensures forall other :: other in r.0 ==> r.0[other] == st[other]
  {
    (st - {id}, id in st)
  }

  /** Deleting what was just created restores the store, and reports it. */
  lemma DeleteUndoesCreate(st: ChangelogStore, data: NewChangelog, id: string, now: Instant)
    requires id !in st
    ensures DeleteChangelog(CreateChangelog(st, data, id, now).0, id) == (st, true)
  {
    var st1 := CreateChangelog(st, data, id, now).0;
    assert st1 - {id} == st;
  }

  // ---------------------------------------------------------------------------
  // storeCommits
  // ---------------------------------------------------------------------------

  /** One commit as the route passes it; `committed_at` already parsed. */
  datatype CommitInput = CommitInput(
    sha: string,
    message: string,
    authorName: string,
    authorEmail: string,
    committedAt: Instant)

  /** `CommitDocument` without its `_id` (src/lib/db/schemas.ts:59-69). */
  datatype StoredCommit = StoredCommit(
    repoId: string,
    commitHash: string,
    commitMessage: string,
    authorName: string,
    authorEmail: string,
    committedAt: Instant,
    createdAt: Instant,
    processed: bool)

  type CommitStore = map<string, StoredCommit>

  /** The document built for one commit (src/lib/db/changelogs.ts:183-192). */
  function CommitDoc(repoId: string, c: CommitInput, now: Instant): StoredCommit {
    StoredCommit(repoId, c.sha, c.message, c.authorName, c.authorEmail, c.committedAt, now, false)
  }

  function Shas(cs: seq<CommitInput>): set<string> {
    set i | 0 <= i < |cs| :: cs[i].sha
  }

  /** One `updateOne(..., { $setOnInsert: doc }, { upsert: true })`. */
  function Upsert(st: CommitStore, d: StoredCommit): CommitStore {
    if d.commitHash in st then st else st[d.commitHash := d]
  }

  /** The documents are upserted one by one, keyed by hash, with
      `$setOnInsert`: a hash already stored keeps its record untouched. */
  function StoreCommits(st: CommitStore, repoId: string, cs: seq<CommitInput>, now: Instant): (r: CommitStore)
    ensures r.Keys == st.Keys + Shas(cs)
    ensures forall h :: h in st ==> r[h] == st[h]
    ensures forall h :: h in r && h !in st ==> !r[h].processed && r[h].repoId == repoId && r[h].createdAt == now
    decreases |cs|
  {
    if cs == [] then st
    else
      assert Shas(cs) == {cs[0].sha} + Shas(cs[1..]) by {
        assert forall i :: 1 <= i < |cs| ==> cs[i].sha == cs[1..][i - 1].sha;
      }
      StoreCommits(Upsert(st, CommitDoc(repoId, cs[0], now)), repoId, cs[1..], now)
  }

  /** Of several inputs with the same new hash, the first is the one stored. */
  lemma {:induction false} StoreCommitsFirstWins(st: CommitStore, repoId: string, cs: seq<CommitInput>, now: Instant, i: nat)
    requires i < |cs| && cs[i].sha !in st
    requires forall j :: 0 <= j < i ==> cs[j].sha != cs[i].sha
    ensures StoreCommits(st, repoId, cs, now)[cs[i].sha] == CommitDoc(repoId, cs[i], now)
    decreases |cs|
  {
    var d := CommitDoc(repoId, cs[0], now);
    var st1 := Upsert(st, d);
    if i == 0 {
      assert st1[cs[0].sha] == d;
    } else {
      var tail := cs[1..];
      assert tail[i - 1] == cs[i];
      forall j | 0 <= j < i - 1 ensures tail[j].sha != tail[i - 1].sha {
        assert tail[j] == cs[j + 1];
      }
      StoreCommitsFirstWins(st1, repoId, tail, now, i - 1);
    }
  }

  /** Storing commits whose hashes are all known changes nothing. */
  lemma {:induction false} StoreKnown(st: CommitStore, repoId: string, cs: seq<CommitInput>, now: Instant)
    requires Shas(cs) <= st.Keys
    ensures StoreCommits(st, repoId, cs, now) == st
    decreases |cs|
  {
    if cs != [] {
      assert cs[0].sha in Shas(cs);
      assert Shas(cs[1..]) <= Shas(cs) by {
        assert forall i :: 0 <= i < |cs| - 1 ==> cs[1..][i].sha == cs[i + 1].sha;
      }
      StoreKnown(st, repoId, cs[1..], now);
    }
  }

  /** Repeating `storeCommits`, for any repository and at any later time,
      changes nothing. */
  lemma StoreCommitsIdempotent(st: CommitStore, repoId: string, cs: seq<CommitInput>, now: Instant, repoId': string, later: Instant)
    ensures StoreCommits(StoreCommits(st, repoId, cs, now), repoId', cs, later) == StoreCommits(st, repoId, cs, now)
  {
    StoreKnown(StoreCommits(st, repoId, cs, now), repoId', cs, later);
  }
}
