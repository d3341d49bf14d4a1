/** How a repository id travels from `createRepository` to
    `updateRepositorySync`. The driver stores a generated ObjectId as `_id`
    (src/lib/db/repositories.ts:30) and the function hands back its hex
    string (line 33); the lookups filter on `{ _id: repoId as any }`
    (lines 46, 63, 76, 118), which compares the string itself with the
    stored ObjectId and so matches nothing. The other store modules key
    records by the id string and therefore model the intended lookup
    `{ _id: new ObjectId(repoId) }`; this module relates the two. */
module ObjectIds {
  import opened Wrappers
  import opened Commits
  import Repositories

  /** A stored `_id`: a driver-generated ObjectId, or a plain string. */
  datatype DocId = ObjectId(hex: string) | TextId(text: string)

  type RawRepoStore = map<DocId, Repositories.RepoRecord>

  /** Every document was inserted by the driver without an explicit `_id`. */
  predicate DriverKeyed(st: RawRepoStore) {
    forall k :: k in st ==> k.ObjectId?
  }

  /** The store as the rest of the model sees it: records by id string. */
  function View(st: RawRepoStore): (v: Repositories.RepoStore)
    requires DriverKeyed(st)
    ensures forall h :: h in v <==> ObjectId(h) in st
    ensures forall h :: h in v ==> v[h] == st[ObjectId(h)]
  {
    map k | k in st :: k.hex := st[k]
  }

  /** `createRepository` as the driver performs it: the record is stored
      under the ObjectId `hex`, and the caller receives the string `hex`. */
  function InsertRepository(st: RawRepoStore, data: Repositories.RepoData, hex: string, now: Instant): (r: (RawRepoStore, string))
    requires ObjectId(hex) !in st
    ensures r.1 == hex && r.0.Keys == st.Keys + {ObjectId(hex)}
    ensures r.0[ObjectId(hex)] == Repositories.CreateRepository(map[], data, hex, now).1
    ensures forall k :: k in st ==> r.0[k] == st[k]
  {
    (st[ObjectId(hex) := Repositories.CreateRepository(map[], data, hex, now).1], hex)
  }

  lemma ViewUpdate(st: RawRepoStore, hex: string, rec: Repositories.RepoRecord)
    requires DriverKeyed(st)
    ensures DriverKeyed(st[ObjectId(hex) := rec])
    ensures View(st[ObjectId(hex) := rec]) == View(st)[hex := rec]
  {
    var a, b := View(st[ObjectId(hex) := rec]), View(st)[hex := rec];
    assert a.Keys == b.Keys;
    assert forall h :: h in a ==> a[h] == b[h];
  }

  /** Apart from the key, the driver's insert is the model's `CreateRepository`. */
  lemma InsertIsModel(st: RawRepoStore, data: Repositories.RepoData, hex: string, now: Instant)
    requires DriverKeyed(st) && ObjectId(hex) !in st
    ensures DriverKeyed(InsertRepository(st, data, hex, now).0)
    ensures View(InsertRepository(st, data, hex, now).0) == Repositories.CreateRepository(View(st), data, hex, now).0
  {
    ViewUpdate(st, hex, Repositories.CreateRepository(map[], data, hex, now).1);
  }

  /** The filter as written: the id string, never converted. */
  function FilterAsWritten(repoId: string): (k: DocId)
    ensures !k.ObjectId?
  {
    TextId(repoId)
  }

  /** The filter evidently intended: the ObjectId the string names. */
  function FilterCorrected(repoId: string): (k: DocId)
    ensures k.ObjectId? && k.hex == repoId
  {
    ObjectId(repoId)
  }

  /** `updateRepositorySync` against the stored documents, with the filter
      already built. */
  function SyncRaw(st: RawRepoStore, key: DocId, now: Instant): (r: (RawRepoStore, Option<Repositories.RepoRecord>))
    ensures r.1.Some? <==> key in st
    ensures key !in st ==> r.0 == st
  {
    if key in st then
      var rec := st[key].(lastSyncAt := Some(now));
      (st[key := rec], Some(rec))
    else (st, None)
  }

  /** As written: right after a repository is connected for the first time,
      stamping its sync time with the id `createRepository` returned finds
      no document, returns null and leaves the store as it was. */
  lemma ConnectThenSyncAsWritten(st: RawRepoStore, data: Repositories.RepoData, hex: string, now: Instant, later: Instant)
    requires DriverKeyed(st) && ObjectId(hex) !in st
    ensures SyncRaw(InsertRepository(st, data, hex, now).0, FilterAsWritten(InsertRepository(st, data, hex, now).1), later)
         == (InsertRepository(st, data, hex, now).0, None)
  {
    var st1 := InsertRepository(st, data, hex, now).0;
    assert st1.Keys == st.Keys + {ObjectId(hex)};
  }

  /** Corrected: the same call finds the new record and stamps it. */
  lemma ConnectThenSyncCorrected(st: RawRepoStore, data: Repositories.RepoData, hex: string, now: Instant, later: Instant)
    requires DriverKeyed(st) && ObjectId(hex) !in st
    ensures SyncRaw(InsertRepository(st, data, hex, now).0, FilterCorrected(InsertRepository(st, data, hex, now).1), later).1.Some?
    ensures SyncRaw(InsertRepository(st, data, hex, now).0, FilterCorrected(InsertRepository(st, data, hex, now).1), later).1.value.lastSyncAt
         == Some(later)
  {
  }

  /** With the corrected filter, the driver-level operation is exactly the
      model's `UpdateRepositorySync` on the id-keyed view. */
  lemma CorrectedSyncIsModel(st: RawRepoStore, repoId: string, now: Instant)
    requires DriverKeyed(st)
    ensures DriverKeyed(SyncRaw(st, FilterCorrected(repoId), now).0)
    ensures View(SyncRaw(st, FilterCorrected(repoId), now).0) == Repositories.UpdateRepositorySync(View(st), repoId, now).0
    ensures SyncRaw(st, FilterCorrected(repoId), now).1 == Repositories.UpdateRepositorySync(View(st), repoId, now).1
  {
    if ObjectId(repoId) in st {
      ViewUpdate(st, repoId, st[ObjectId(repoId)].(lastSyncAt := Some(now)));
    }
  }
}
