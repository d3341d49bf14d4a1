/** The users collection (src/lib/db/users.ts) as a finite map from `_id`
    to record. The collection keeps `github_id` unique
    (src/lib/db/schemas.ts:75); `GithubIdsUnique` is that invariant, and the
    upsert below keeps it. */
module Users {
  import opened Wrappers
  import opened Commits

  /** The GitHub profile a sign-in delivers (src/lib/db/users.ts:19-25). An
      absent access token is `None`. */
  datatype GithubProfile = GithubProfile(
    id: string,
    login: string,
    email: string,
    avatarUrl: string,
    accessToken: Option<string>)

  /** `UserDocument` without its `_id` (src/lib/db/schemas.ts:12-21). */
  datatype UserRecord = UserRecord(
    githubId: string,
    username: string,
    email: string,
    avatarUrl: string,
    accessToken: Option<string>,
    createdAt: Instant,
    updatedAt: Instant)

  type UserStore = map<string, UserRecord>

  predicate GithubIdsUnique(st: UserStore) {
    forall a, b :: a in st && b in st && st[a].githubId == st[b].githubId ==> a == b
  }

  /** The id of the one user with this GitHub id, if any. */
  function UserIdByGithubId(st: UserStore, githubId: string): (r: Option<string>)
    requires GithubIdsUnique(st)
    ensures r.Some? <==> exists id :: id in st && st[id].githubId == githubId
    ensures r.Some? ==> r.value in st && st[r.value].githubId == githubId
  {
    if id :| id in st && st[id].githubId == githubId then Some(id) else None
  }

  /** `getUserByGithubId`: the matching record, or `None`. */
  function UserByGithubId(st: UserStore, githubId: string): (r: Option<UserRecord>)
    requires GithubIdsUnique(st)
    ensures r.Some? <==> exists id :: id in st && st[id].githubId == githubId
    ensures r.Some? ==> r.value.githubId == githubId && r.value in st.Values
  {
    match UserIdByGithubId(st, githubId)
    case Some(id) => Some(st[id])
    case None => None
  }

  /** The `$set` part: the profile fields and the update time. */
  function SetProfile(u: UserRecord, p: GithubProfile, now: Instant): UserRecord {
    u.(username := p.login, email := p.email, avatarUrl := p.avatarUrl,
       accessToken := p.accessToken, updatedAt := now)
  }

  /** `findOrCreateUser`: an upsert keyed by the GitHub id. An existing user
      has the `$set` fields overwritten and keeps `github_id` and
      `created_at`; an unseen one is inserted under the fresh id `newId`,
      created now. Returns the id and the record after the update. */
  function FindOrCreateUser(st: UserStore, p: GithubProfile, newId: string, now: Instant): (r: (UserStore, string, UserRecord))
    requires GithubIdsUnique(st) && newId !in st
    ensures GithubIdsUnique(r.0)
    ensures r.1 in r.0 && r.0[r.1] == r.2
    ensures r.2.githubId == p.id && r.2.username == p.login && r.2.email == p.email
    ensures r.2.avatarUrl == p.avatarUrl && r.2.accessToken == p.accessToken && r.2.updatedAt == now
    ensures forall id :: id in st && st[id].githubId != p.id ==> id in r.0 && r.0[id] == st[id]
    ensures r.0.Keys == st.Keys + {r.1}
  {
    match UserIdByGithubId(st, p.id)
    case Some(id) =>
      var u := SetProfile(st[id], p, now);
      (st[id := u], id, u)
    case None =>
      var u := UserRecord(p.id, p.login, p.email, p.avatarUrl, p.accessToken, now, now);
      (st[newId := u], newId, u)
  }

  /** A returning user keeps their id and creation time, and no record is added. */
  lemma ReturningUser(st: UserStore, p: GithubProfile, newId: string, now: Instant, id: string)
    requires GithubIdsUnique(st) && newId !in st
    requires id in st && st[id].githubId == p.id
    ensures FindOrCreateUser(st, p, newId, now).1 == id
    ensures FindOrCreateUser(st, p, newId, now).0.Keys == st.Keys
    ensures FindOrCreateUser(st, p, newId, now).2.createdAt == st[id].createdAt
  {
    assert UserIdByGithubId(st, p.id) == Some(id);
  }

  /** A first sign-in adds exactly one record, created and updated now. */
  lemma NewUser(st: UserStore, p: GithubProfile, newId: string, now: Instant)
    requires GithubIdsUnique(st) && newId !in st
    requires forall id :: id in st ==> st[id].githubId != p.id
    ensures FindOrCreateUser(st, p, newId, now).1 == newId
    ensures FindOrCreateUser(st, p, newId, now).0 == st[newId := FindOrCreateUser(st, p, newId, now).2]
    ensures FindOrCreateUser(st, p, newId, now).2.createdAt == now
  {
  }

  /** After the upsert exactly one user has the profile's GitHub id, and
      looking it up yields the record `findOrCreateUser` returned. */
  lemma UpsertThenLookup(st: UserStore, p: GithubProfile, newId: string, now: Instant)
    requires GithubIdsUnique(st) && newId !in st
    ensures UserByGithubId(FindOrCreateUser(st, p, newId, now).0, p.id) == Some(FindOrCreateUser(st, p, newId, now).2)
  {
  }

  /** Signing in again later keeps the creation time of the first sign-in. */
  lemma CreatedAtSurvivesRelogin(st: UserStore, p: GithubProfile, q: GithubProfile, newId: string, newId': string, now: Instant, later: Instant)
    requires GithubIdsUnique(st) && newId !in st && q.id == p.id
    requires newId' !in FindOrCreateUser(st, p, newId, now).0
    ensures FindOrCreateUser(FindOrCreateUser(st, p, newId, now).0, q, newId', later).2.createdAt
         == FindOrCreateUser(st, p, newId, now).2.createdAt
    ensures FindOrCreateUser(FindOrCreateUser(st, p, newId, now).0, q, newId', later).1
         == FindOrCreateUser(st, p, newId, now).1
  {
    var r := FindOrCreateUser(st, p, newId, now);
    ReturningUser(r.0, q, newId', later, r.1);
  }
}
