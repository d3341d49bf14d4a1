# Delta changelog core, modelled in Dafny

Delta connects a GitHub repository, stores its commits and turns them into
a changelog. This project models the deterministic core of that system and
proves properties of the model:

- **Commit analysis** (`Analysis`). Each commit message is filed into at
  most one of nine category lists by keyword precedence, or dropped as
  noise. The analysis also records the author set, the time spread and the
  commit count.
- **Month grouping** (`Grouping`, `Commits`). Commits are bucketed by
  calendar month under a `YYYY-MM` key, latest month first.
- **Changelog composition** (`Composer`). This covers the version and
  title strings, the activity tier and the sparse-repository test. It also
  covers the structure of the fallback changelog: one section per month,
  with either the sparse layout or per-category headings in display order.
  The text service is an oracle argument: a missing or empty reply selects
  the fallback.
- **Stored records** (`Slugs`, `Changelogs`, `Repositories`, `Users`).
  MongoDB collections are finite maps from id to record. The model covers:
  - public-slug derivation and the suffix loop that makes slugs unique;
  - changelog create, update, publish, unpublish and delete;
  - insert-only commit storage;
  - repository and user upserts keyed by GitHub id;
  - repository listing, newest first.
- **Error mapping** (`ErrorHandler`). Thrown values become JSON error
  responses.
- **Id handling** (`ObjectIds`). This module relates the driver's ObjectId
  keys to the id strings the functions return (see Findings).

`Text` models the JavaScript string built-ins the source uses:
`toLowerCase`, `includes`, `trim`, `length`, `split('\n')[0]`, `String(n)`
and `padStart`. `Wrappers` holds `Option` and `Result`. `Scenarios` holds
worked examples on concrete messages.

Dates are abstract. An `Instant` carries a year, a month, a day and a
millisecond timestamp, as read through `getFullYear`, `getMonth() + 1`,
`getDate` and `getTime`. Clocks and fresh ids are parameters
(`now`, `id`).

Where the documentation and the code disagree, the model follows the code:

- A month of three commits whose three messages are each filed (say a
  feature, a fix and a documentation update) takes the sparse layout. It
  does not get one heading per category, because the sparse test at
  src/lib/openai.ts:290 is `length <= 5 && totalChanges <= 3`.
  `Scenarios.ThreeCommitMonth` shows this.
- "docs: update readme" is an improvement, not documentation, because
  the keyword `update` at src/lib/openai.ts:94 comes before `doc` at :96.
  `Scenarios.DocsUpdateIsImprovement` shows this.

## Model

| member | source | states |
|---|---|---|
| Analysis.ClassifySpec | src/lib/openai.ts:80-113 | A message lands in the first category, in the order features, fixes, improvements, documentation, testing, dependencies, configuration, refactoring, one of whose keywords occurs in its lower-cased text. It lands in no earlier one. An unmatched message goes to "other" exactly when it has no merge/bump/version and its trimmed length exceeds 5; otherwise it is dropped. |
| Analysis.AnalyzeCommits | src/lib/openai.ts:52-123 | The single forEach pass computes the same record as the list-by-list definition. `commitFrequency` is the input length, and `authors` is exactly the set of author names that occur. |
| Analysis.Spread | src/lib/openai.ts:72-75 | For a non-empty list, earliest is at most every commit time and latest is at least every commit time. The empty list has no spread. |
| Analysis.Earliest | src/lib/openai.ts:73 | The minimum commit time: below or equal to every commit's time and attained by some commit. |
| Analysis.Latest | src/lib/openai.ts:74 | The maximum commit time: above or equal to every commit's time and attained by some commit. |
| Analysis.BucketPatterns | src/lib/openai.ts:80-113 | The nine lists built by pushing commit after commit are, list by list, the messages filed under that category. |
| Analysis.FileMessage | src/lib/openai.ts:86-113 | One step of the pass appends the commit's message to the list of its category and to no other list. |
| Analysis.AnalyzeStep | src/lib/openai.ts:80-84 | Extending the input by one commit extends each list by that commit's contribution and adds its author to the author set. |
| Analysis.ListedCount | src/lib/openai.ts:80-113 | Every commit is listed exactly once or dropped, so the lists together hold at most as many messages as there are commits. |
| Analysis.BucketIsOrdered | src/lib/openai.ts:82-112 | Each list is a subsequence of the input messages: input order and original spelling are kept, not the lower-cased text. |
| Analysis.BucketIsHomogeneous | src/lib/openai.ts:87-113 | Every message of a list is classified under that list's category. |
| Grouping.GroupByMonth | src/lib/openai.ts:22-49 | Groups come strictly latest month first. Every group is non-empty and holds exactly that month's commits in input order. Every commit's month has a group. |
| Grouping.GroupingIsPermutation | src/lib/openai.ts:31-47 | Concatenating the groups gives a permutation of the input commits. |
| Grouping.FlattenGroups | src/lib/openai.ts:44-47 | Groups over distinct months hold, as a multiset, exactly the commits whose month is among them. |
| Grouping.SortLatestFirst | src/lib/openai.ts:42 | The months are reordered strictly latest first, as a permutation of the input months. |
| Grouping.DistinctMonths | src/lib/openai.ts:35-37 | Each month that occurs among the commits appears exactly once. |
| Commits.MonthKeyRoundTrip | src/lib/openai.ts:33 | Every `YYYY-MM` key parses back to the month it was built from. |
| Commits.MonthKeyInjective | src/lib/openai.ts:33-38 | Two months share a bucket key exactly when they are the same month. |
| Commits.MonthKeyOrder | src/lib/openai.ts:42 | With four-digit years every key has seven characters, and `b.localeCompare(a)` puts `a` first exactly when `a` is the later month. |
| Commits.DigitsLex | src/lib/openai.ts:42 | For digit strings of equal length, string order is numeric order. |
| Composer.VersionRoundTrip | src/lib/openai.ts:134 | The version string parses back to the generation date's year, month and day. |
| Composer.VersionFormat | src/lib/openai.ts:134 | For a four-digit year the version is `v`, four digits, `.`, two digits, `.`, two digits. |
| Composer.TierMonotone | src/lib/openai.ts:159 | More commits never lower the activity tier. Light means fewer than 10 commits and Heavy means at least 30. |
| Composer.SparseRepoIsSmall | src/lib/openai.ts:143 | A repository is sparse exactly when it has at most five commits; the frequency test adds nothing. |
| Composer.GenerateChangelog | src/lib/openai.ts:125-256 | The version is that of `now`, and the title is `repoName - version` on both paths. The service text is used exactly when the reply is present and non-empty; otherwise the result is exactly the fallback changelog for the version of `now`. |
| Composer.FallbackChangelog | src/lib/openai.ts:259-440 | The title is `repoName - version`. There is one month section per month group, in the same order, and each is the fallback month layout of its group. The header counts are the commit count and the number of distinct authors. |
| Composer.Compose | src/app/api/repositories/changelogs/generate/route.ts:47-51 | Generation fails exactly when there are no commits; otherwise the title carries the version of `now`. |
| Composer.InsightsMatchAnalysis | src/lib/openai.ts:437 | The footer's counts and tier are those of the analysis: commit frequency, author set size, month count and the tier of the frequency. |
| Composer.FallbackMonth | src/lib/openai.ts:282-324 | A month section belongs to its group's month and reports that month's commit count. |
| Composer.SparseMonthShape | src/lib/openai.ts:290-321 | A sparse month has exactly one section. It is "Project Foundation" exactly when some message looks like setup. Otherwise it is "Development Activity" with one bullet per commit: the first line of its message and its date. |
| Composer.SmallMonthIsSparse | src/lib/openai.ts:290 | A month of at most three commits is always sparse, whatever its messages. |
| Composer.DetailedHeadings | src/lib/openai.ts:326-424 | In a month that is not sparse, a category heading appears exactly when that category's list is non-empty. |
| Composer.DetailedOrder | src/lib/openai.ts:326-424 | In a month that is not sparse, category headings follow the display order features, improvements, fixes, refactoring, dependencies, testing, documentation, configuration, other. |
| Composer.DetailedBullets | src/lib/openai.ts:326-424 | Each category section has one bullet per listed message, and each bullet carries a date, since every listed message is some commit's message. |
| Composer.DetailedActivity | src/lib/openai.ts:427-431 | In a month that is not sparse, "Development Activity" is emitted exactly when no message is listed, and "Project Foundation" never is. |
| Composer.FindDate | src/lib/openai.ts:330 | The lookup finds a date exactly when some commit has that message, and the date found is that of the first such commit. |
| Slugs.SlugifyIsSlug | src/lib/db/changelogs.ts:66-68 | Every base slug uses only `a-z`, `0-9` and `-`. It has no dash at either end and no two dashes in a row. It may be empty. |
| Slugs.SlugifyKeeps | src/lib/db/changelogs.ts:66-68 | The slug keeps every ASCII letter and digit of the lower-cased title, in order. |
| Slugs.SlugifyEmpty | src/lib/db/changelogs.ts:66-68 | The slug is empty exactly when the title has no ASCII letter or digit. |
| Slugs.SlugifyFixesSlugs | src/lib/db/changelogs.ts:66-68 | Slugifying a well-formed slug returns it unchanged. |
| Slugs.SlugifyIdempotent | src/lib/db/changelogs.ts:66-68 | Slugifying a base slug again returns it unchanged. |
| Slugs.CandidateInjective | src/lib/db/changelogs.ts:70-77 | Distinct counter values give distinct candidates: the base, then `base-1`, `base-2`, and so on. |
| Slugs.ChooseSlug | src/lib/db/changelogs.ts:70-77 | The chosen slug is not taken. It is the base when the base is free, and otherwise the first free suffix. The counter never exceeds the number of existing slugs, so the loop terminates. |
| Slugs.FirstFreeUnique | src/lib/db/changelogs.ts:74-77 | The first free candidate number is unique. |
| Changelogs.CreateChangelog | src/lib/db/changelogs.ts:62-98 | Exactly one record is added. It copies the input fields, is published only when the input says true, and is stamped `now`. Its slug is the first free candidate, so unique slugs stay unique. |
| Changelogs.ChangelogById | src/lib/db/changelogs.ts:115-126 | The record under the id, or nothing when there is none. |
| Changelogs.ChangelogBySlug | src/lib/db/changelogs.ts:128-139 | A changelog is found exactly when the slug is in use, and it is the stored one with that slug. |
| Changelogs.CreatedIsFound | src/lib/db/changelogs.ts:62-139 | A changelog just created is found by its id and by its slug. |
| Changelogs.UpdateChangelog | src/lib/db/changelogs.ts:141-155 | Only the record with that id changes: it becomes the stored record with the patch applied, stamped `now`. The result is true exactly when that record exists and its stored value changed. |
| Changelogs.PublishChangelog | src/lib/db/changelogs.ts:157-159 | Sets the flag and the update time and nothing else. Reports true exactly when the record exists and was not already in that state. |
| Changelogs.UnpublishChangelog | src/lib/db/changelogs.ts:161-163 | Clears the flag and sets the update time, and nothing else. Reports true exactly when the record exists and was not already in that state. |
| Changelogs.PublishRoundTrip | src/lib/db/changelogs.ts:157-163 | Unpublishing a just-published draft, at the draft's old update time, restores the store. |
| Changelogs.UpdateKeepsSlugs | src/lib/db/changelogs.ts:141-155 | An update that does not set the slug leaves every slug in place, so unique slugs stay unique. |
| Changelogs.PublishKeepsSlugs | src/lib/db/changelogs.ts:141-163 | Publishing and unpublishing leave every slug in place, so slugs stay unique. |
| Changelogs.DeleteChangelog | src/lib/db/changelogs.ts:165-171 | Removes exactly that record and reports true exactly when it existed. |
| Changelogs.DeleteUndoesCreate | src/lib/db/changelogs.ts:62-171 | Deleting a changelog just created restores the store and reports true. |
| Changelogs.StoreCommits | src/lib/db/changelogs.ts:174-201 | Afterwards every input hash is stored. Records that already existed are unchanged, and new records are unprocessed, belong to the repository and are stamped `now`. |
| Changelogs.StoreCommitsFirstWins | src/lib/db/changelogs.ts:195-200 | Of several inputs sharing a new hash, the first one is stored. |
| Changelogs.StoreKnown | src/lib/db/changelogs.ts:195-200 | Storing commits whose hashes are all known changes nothing. |
| Changelogs.StoreCommitsIdempotent | src/lib/db/changelogs.ts:174-201 | Repeating the call, for any repository at any later time, changes nothing. |
| Repositories.CreateRepository | src/lib/db/repositories.ts:13-35 | Exactly one record is added. It holds the supplied fields, is connected `now` and has never been synced. |
| Repositories.RepositoryByGithubId | src/lib/db/repositories.ts:38-41 | Finds a record exactly when one has that GitHub id, and it is that one. |
| Repositories.RepositoryById | src/lib/db/repositories.ts:44-47 | The record under the id, or nothing when there is none. |
| Repositories.UpdateRepository | src/lib/db/repositories.ts:56-69 | Only the record with that id changes: it becomes the stored record with the patch's fields set, so its owner and connection time are kept. Returns the record after the update, or nothing when the id is absent. |
| Repositories.UpdateKeepsGithubIds | src/lib/db/repositories.ts:56-69 | An update that leaves the GitHub id alone keeps GitHub ids unique. |
| Repositories.UpdateRepositorySync | src/lib/db/repositories.ts:72-82 | Changes only `last_sync_at`, to `now`, and returns the updated record. Returns nothing, with the store unchanged, when the id is absent. |
| Repositories.FindOrCreateRepository | src/lib/db/repositories.ts:85-113 | GitHub ids stay unique. The returned record is stored and carries the supplied GitHub id and descriptive fields. |
| Repositories.FindOrCreateExisting | src/lib/db/repositories.ts:97-108 | A known GitHub id updates that record in place and adds none. Only the five descriptive fields change; owner, GitHub id, connection time and sync state are kept. |
| Repositories.FindOrCreateNew | src/lib/db/repositories.ts:109-112 | An unknown GitHub id creates one record, owned by the caller and connected `now`. |
| Repositories.ReconnectAddsNothing | src/lib/db/repositories.ts:85-113 | Connecting the same repository again adds no record. |
| Repositories.DeleteRepository | src/lib/db/repositories.ts:116-120 | Removes exactly that record and reports true exactly when it existed. |
| Repositories.DeleteUndoesCreate | src/lib/db/repositories.ts:13-120 | Deleting a repository just created restores the store and reports true. |
| Repositories.UserRepositories | src/lib/db/repositories.ts:50-53 | Returns exactly the owner's records, each once, ordered by connection time, newest first. |
| Repositories.InsertNewest | src/lib/db/repositories.ts:52 | Inserting into a newest-first list keeps it newest first and adds exactly that entry. |
| Users.UserByGithubId | src/lib/db/users.ts:13-16 | A user is found exactly when one has that GitHub id, and it is the stored one. |
| Users.FindOrCreateUser | src/lib/db/users.ts:19-60 | Afterwards GitHub ids stay unique. The returned record is the stored one after the update, with the profile fields set and the update time `now`. Users with other GitHub ids are unchanged. |
| Users.ReturningUser | src/lib/db/users.ts:30-43 | A known GitHub id keeps its record id and creation time, and no record is added. |
| Users.NewUser | src/lib/db/users.ts:30-47 | An unseen GitHub id adds exactly one record, created and updated `now`. |
| Users.UpsertThenLookup | src/lib/db/users.ts:13-52 | After the upsert, looking the GitHub id up yields the record the upsert returned. |
| Users.CreatedAtSurvivesRelogin | src/lib/db/users.ts:40-43 | Signing in again later keeps the record id and the creation time of the first sign-in. |
| ErrorHandler.HandleGitHubError | src/lib/api/error-handler.ts:9-30 | 404, 403 and 409 keep their status, each with its own fixed text and no details. Any other or missing status becomes 500 "GitHub API error" with the thrown message as details. |
| ErrorHandler.GitHubTextDeterminesStatus | src/lib/api/error-handler.ts:12-29 | The error text alone determines the status. |
| ErrorHandler.HandleAPIError | src/lib/api/error-handler.ts:32-39 | Always 500 "Internal server error". The details are the Error's message, or "Unknown error" for any other thrown value. |
| ErrorHandler.APIErrorIsCreatable | src/lib/api/error-handler.ts:32-45 | The catch-all response equals the one `createErrorResponse` builds from "Internal server error", status 500 and the same details, for every thrown value except an Error with an empty message (whose empty details `createErrorResponse` would drop). |
| ErrorHandler.CreateErrorResponse | src/lib/api/error-handler.ts:41-45 | The status defaults to 400. Details are included exactly when given and non-empty. |
| ErrorHandler.CreateErrorResponseRebuilds | src/lib/api/error-handler.ts:41-45 | Any response whose details are absent or non-empty is what `createErrorResponse` builds from its own parts. |
| Text.ContainsAt | src/lib/openai.ts:87-113 | The `includes` test holds exactly when the keyword occurs at some position. |
| Text.IntRoundTrip | src/lib/openai.ts:33 | `String(n)` of any integer parses back to it. |
| Text.Pad2RoundTrip | src/lib/openai.ts:33 | Two-digit padding of a value below 100 is two digits that read back as the value. |
| Text.FirstLine | src/lib/openai.ts:316 | The first line is a prefix without a line break, ending at the first break if there is one. |
| Scenarios.DocsUpdateIsImprovement | src/lib/openai.ts:93-98 | "docs: update readme" is filed as an improvement. |
| Scenarios.FixExample | src/lib/openai.ts:90-92 | "fix: crash on null" is filed as a fix. |
| Scenarios.DroppedExample | src/lib/openai.ts:110-113 | "wip" is listed nowhere. |
| Scenarios.ThreeCommitMonth | src/lib/openai.ts:290-321 | Three single-line commits with no setup message get one "Development Activity" section with one bullet each. |
| Scenarios.InitialCommitMonth | src/lib/openai.ts:297-311 | A lone "Initial commit" gets the "Project Foundation" section with its two fixed bullets. |
| Scenarios.VersionExample | src/lib/openai.ts:134 | A generation on 15 January 2024 is versioned "v2024.01.15". |
| ObjectIds.InsertIsModel | src/lib/db/repositories.ts:22-34 | Apart from its ObjectId key, the driver's insert is the model's `CreateRepository`. |
| ObjectIds.ConnectThenSyncAsWritten | src/lib/db/repositories.ts:72-82 | As written: stamping the sync time of a just-connected repository with the returned id finds nothing and changes nothing. |
| ObjectIds.ConnectThenSyncCorrected | src/lib/db/repositories.ts:72-82 | Corrected: the same call finds the new record and stamps its sync time. |
| ObjectIds.CorrectedSyncIsModel | src/lib/db/repositories.ts:72-82 | With the corrected filter, the driver-level update is exactly `Repositories.UpdateRepositorySync` on the id-keyed view. |

## Left out

- The text-service call and its prompt (src/lib/openai.ts:146-243) are I/O to an external service. The reply is an `Option<string>` argument, and its Markdown is opaque.
- Locale formatting is host- and locale-dependent: month labels, short dates in bullets, "Release Date" and the "Generated" timestamp. Bullets carry the commit's `Instant` instead of the formatted date, and month headings carry the month instead of its label.
- Local-time conversion of ISO timestamps is left out. Commits carry the calendar fields directly.
- The `filePatterns` regex extraction (src/lib/openai.ts:116-119) is left out because nothing reads its result.
- The fallback's Markdown text is not modelled byte for byte: emoji, italics, `---` rules and the count sentences. Sections are modelled as heading values with bullet values.
- Lower-casing covers ASCII `A`-`Z` only, where `toLowerCase` applies the full Unicode mapping. Keyword and slug results can differ for non-ASCII capitals.
- Month order is modelled as (year, month) order. The source sorts keys with `localeCompare`. `Commits.MonthKeyOrder` shows the two agree for four-digit years.
- Composer.VersionFormat: stated for four-digit years only, since the source's format has no fixed width for other years.
- Commits.MonthKeyOrder: stated for four-digit years only, for the same reason.
- MongoDB driver calls, connection handling and index creation are I/O. The unique indexes on `github_id`, `github_repo_id`, `public_slug` and `commit_hash` (src/lib/db/schemas.ts:75-96) are declared but never created: both calls of `initializeDatabase` are commented out (src/app/api/repositories/connect/route.ts:11, src/lib/auth.ts:21). Uniqueness of ids and slugs therefore rests only on the operations' own checks, and the lemmas prove that those checks preserve it. The email index and the driver's duplicate-key errors are not modelled.
- The check-then-insert slug race (src/lib/db/changelogs.ts:74-93) is left out; the model is single-threaded.
- `getChangelogsByRepository` and `getRepositoryWithStats` are left out. They are plain queries and an aggregation for display that no modelled property depends on.
- `generateChangelogContent` (src/lib/db/changelogs.ts:32-46) copies its input field for field into the generation input and calls `generateChangelogWithAI`. It has no separate member; `Composer.GenerateChangelog` covers it.
- `storeCommits` calls `new Date()` once per document. The model uses one `now` per call.
- Changelogs.CreateChangelog: stamps `created_at` and `updated_at` with one `now`; the source reads the clock twice (src/lib/db/changelogs.ts:89-90), so the two stored times may differ by the time between the calls.
- Changelogs.UpdateChangelog: a patch that passes `undefined` to clear a field, or that sets `_id`, is not modelled. Patches only set fields.
- Repositories.UpdateRepository: clearing a field through `undefined` is likewise not modelled.
- Repository fields the connect flow never sets are not modelled, apart from `webhook_id` and `last_sync_at`.
- Other files are not part of this model: the GitHub REST client, the webhook handler, the route handlers (apart from the non-empty commit guard), the authentication callbacks and middleware, and the UI.
- The same id mismatch as in Findings affects `getChangelogById`, `updateChangelog` and `deleteChangelog` (src/lib/db/changelogs.ts:118, 145, 168). Those also filter `{ _id: id as any }` against a driver ObjectId. All stores are keyed by the id string, which is the corrected behaviour.

## Findings

| source | as written | input that shows it | evidently intended | confidence | as-written member | corrected member |
|---|---|---|---|---|---|---|
| src/lib/db/repositories.ts:72-82 | `createRepository` stores a driver-generated ObjectId as `_id` but returns its hex string. `updateRepositorySync` then filters `{ _id: repoId as any }`, comparing that string with the ObjectId, so it matches nothing. `getRepositoryById`, `updateRepository` and `deleteRepository` filter the same way (lines 46, 63, 118). | Connect a repository for the first time. The connect route then calls `updateRepositorySync(repoDoc._id!)` (src/app/api/repositories/connect/route.ts:61) with the returned id. No document is matched, `null` comes back and `last_sync_at` is never set. | Filter with `new ObjectId(repoId)`, so that the id returned by `createRepository` finds the record it names. | not executed | ObjectIds.ConnectThenSyncAsWritten | ObjectIds.ConnectThenSyncCorrected |
