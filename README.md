# novel-viewer, modelled in Dafny

This project models the deterministic logic of the novel-viewer web site. The site has two
front ends and two maintenance scripts:

- **Query layer** (`frontend/src/lib/supabase`). The fixture branch of `getNovelsList` and
  `getNovelDetail` filters by title, genre and author, then cuts a page window. Its test double
  repeats the same logic. The live branch's `range` bounds are compared with the fixture slice.
- **Two Basic-authentication gates.** The Next.js middleware is switched on by
  `BASIC_AUTH_ENABLED`. The Vercel edge middleware is switched on by the configured credentials.
  Both read the `Authorization` header in their own way, which departs from section 2 of
  RFC 7617. Base64 decoding (`atob`, section 4 of RFC 4648) is a partial-function parameter.
- **Relative dates** (`formatRelativeTime`): floor division of a millisecond difference into
  days, then buckets for today, yesterday, days, weeks, months and years.
- **The search box**: its query state, and the `URLSearchParams` it edits with `set` and
  `delete` before pushing an address.
- **The data scripts.** `validate_data.py` collects errors and warnings per manuscript
  directory and derives the exit status. `sync_supabase.py` builds novel and episode records
  and decides which upserts are sent. Both work over already-parsed `info.yml` / front-matter
  records.
- **The Alpine.js prototype** (`frontend/assets/js`): the list, detail and episode pages, as
  classes whose fields the methods assign, with `window.location.href` as a field.

Shared runtime semantics are defined once, in Dafny terms:

- `Text`: `includes`, ASCII `toLowerCase`, JavaScript and Python white-space trimming,
  `split`, decimal rendering, ECMAScript `parseInt`.
- `Seqs`: `filter`, `find`, `slice`, `map`.
- `Manuscripts`: Python's `int()`, hashing and name sorting.

Imperative source code becomes imperative Dafny:

- The validator's and the sync script's loops are `for` loops. Each is proved against a
  specification function recursive over a prefix.
- The search box and the Alpine components are classes.
- Everything that only computes is a function with lemmas.

## Model

| member | source | states |
|---|---|---|
| Queries.ApplySearchIsFilter | frontend/src/lib/supabase/queries.ts:84-101 | the three guarded filters together are one filter by the reference predicate `Matches`: a non-empty query, genre or author each apply one test, and an empty one applies none |
| Queries.PaginateWindow | frontend/src/lib/supabase/queries.ts:104-108 | the page window is the elements from `(page-1)*limit` on, at most `limit` of them; it is empty exactly when the offset reaches the end or the limit is 0, and it keeps the array's order |
| Queries.ListNovels | frontend/src/lib/supabase/queries.ts:84-110 | the fixture branch always returns data and never an error |
| Queries.ListNovelsSpec | frontend/src/lib/supabase/queries.ts:84-110 | the result is the page window of the reference filter; it is an order-preserving subsequence of the fixture array, and every novel in it satisfies the search |
| Queries.ListNovelsMembership | frontend/src/lib/supabase/queries.ts:87-101 | without paging, a novel is listed exactly when it is in the array and passes every given filter |
| Queries.ListNovelsUnfiltered | frontend/src/lib/supabase/queries.ts:84-110 | no search (or only empty strings) and no paging gives the whole array in order, with a null error |
| Queries.FirstPageOfFixture | frontend/src/lib/supabase/queries.ts:9-43 | a first page of twenty on the three-novel fixture is all three, in fixture order |
| Queries.RangeRows | frontend/src/lib/supabase/queries.ts:134-138 | the inclusive `range(from, to)` holds `min(to+1, n) - from` rows, none when `to < from` or `from` is past the end, and its k-th row is row `from+k` |
| Queries.RangeRowsIsSlice | frontend/src/lib/supabase/queries.ts:134-138 | the inclusive `range(from, from+count-1)` selects exactly `slice(from, from+count)` |
| Queries.LiveRangeMatchesSlice | frontend/src/lib/supabase/queries.ts:134-138 | the live branch's page bounds and the fixture branch's window select the same rows |
| Queries.NovelDetailSpec | frontend/src/lib/supabase/queries.ts:158-180 | not found (error 'Novel not found') exactly when no novel's decimal id text equals `id`; otherwise every field of the first such novel except its numeric `episodes` count, which the spread overwrites with the episode list; `description` equal to `summary`; and that list is the episodes filed under `id`, in order, projected to id/title/number/publication time |
| Queries.SpreadSpec | frontend/src/lib/supabase/queries.ts:173-178 | `{ ...novel, description, episodes }` keeps the novel's own fields and carries the given description and episode list in place of the count |
| Queries.NovelDetailEpisodeMembership | frontend/src/lib/supabase/queries.ts:164-171 | every episode whose `novel_id` text is `id` appears in the found novel's list |
| Queries.UnknownNovel | frontend/src/lib/supabase/queries.ts:158-161 | an id no fixture has gives data null and 'Novel not found' |
| Queries.PaddedIdIsNotFound | frontend/src/lib/supabase/queries.ts:158 | the look-up compares text, so "01" finds nothing |
| QueriesMock.MockListNovels | frontend/src/lib/supabase/queries.mock.ts:12-40 | the mock list never returns an error |
| QueriesMock.MockSearchAgreesWithQueries | frontend/src/lib/supabase/queries.mock.ts:15-31 | the mock's title, genre and author filters select the same novels in the same order as the fixture branch |
| QueriesMock.MockListAgreesWithQueries | frontend/src/lib/supabase/queries.mock.ts:12-40 | for every array, search and page, the mock list equals the fixture branch's list, page window included |
| QueriesMock.NovelByIdSpec | frontend/src/lib/supabase/queries.mock.ts:43-49 | found exactly when some novel's id equals `parseInt(id)`, and then it is the first such novel; otherwise data null and 'Novel not found' |
| QueriesMock.TextualLookupImpliesParsedLookup | frontend/src/lib/supabase/queries.mock.ts:44 | any id the fixture branch of `getNovelDetail` finds, the mock finds too, and it is the same novel |
| QueriesMock.ParsedLookupIsLooser | frontend/src/lib/supabase/queries.mock.ts:44 | the mock reads "01" as novel 1, which the fixture branch does not find |
| QueriesMock.EpisodesByNovelIdSpec | frontend/src/lib/supabase/queries.mock.ts:51-54 | exactly the episodes whose `novel_id` equals `parseInt(novelId)`, in order, possibly none, never an error |
| QueriesMock.EpisodeByIdAsWrittenNeverFinds | frontend/src/lib/supabase/queries.mock.ts:56-62 | as written, `e.id === id` compares a number with a string, so every call answers 'Episode not found' |
| QueriesMock.EpisodeByIdSpec | frontend/src/lib/supabase/queries.mock.ts:56-62 | corrected look-up: error exactly when no episode's id is `parseInt(id)`; otherwise the first episode with that id |
| QueriesMock.EpisodeFoundByOwnId | frontend/src/lib/supabase/queries.mock.ts:56-62 | corrected look-up: an episode is always found by its own id text, and the answer carries that id |
| BasicAuth.UserOf | frontend/src/middleware.ts:19 | the user is the first `:`-piece of the decoded text and holds no colon |
| BasicAuth.PasswordOf | frontend/src/middleware.ts:19 | the password is the second `:`-piece: undefined exactly when the decoded text has no colon, and colon-free otherwise |
| BasicAuth.CredentialsOf | frontend/api/_middleware.js:27 | decoded `u:p`, or `u:p:rest`, is read as user `u` and password `p` |
| BasicAuth.TokenAfterWord | frontend/src/middleware.ts:18 | the token is the second space-separated piece, whatever the first word is |
| Middleware.DisabledAllowsAll | frontend/src/middleware.ts:9-11 | anything but exactly 'true' in `BASIC_AUTH_ENABLED` lets every request pass |
| Middleware.DecideSpec | frontend/src/middleware.ts:14-38 | switched on: it throws exactly when a header is present and `atob` rejects the token; it passes exactly when the decoded user and password equal the configured ones; otherwise it gives the 401 with 'Authentication required' and `WWW-Authenticate: Basic realm="Novel Viewer"`; no header always gives the 401 |
| Middleware.SchemeIgnored | frontend/src/middleware.ts:18 | replacing the scheme word by any other word changes nothing |
| Middleware.ExtraPiecesIgnored | frontend/src/middleware.ts:19 | decoded "a:b:c" passes for the pair a / b |
| Middleware.ColonPasswordNeverMatches | frontend/src/middleware.ts:19-25 | a configured password containing `:` can never be matched |
| Middleware.UnsetUserNeverPasses | frontend/src/middleware.ts:19-25 | with `BASIC_AUTH_USER` unset no request passes |
| Middleware.UnsetPasswordAcceptsBareUser | frontend/src/middleware.ts:19-25 | with `BASIC_AUTH_PASSWORD` unset, a colon-free decoded user name alone passes, since undefined equals undefined |
| Middleware.InvalidTokenThrows | frontend/src/middleware.ts:17-19 | a token `atob` rejects is not caught: the request fails instead of being challenged |
| Middleware.AgreesWithRfcOnPlainCredentials | frontend/src/middleware.ts:17-27 | for a well-formed `Basic` header with colon-free parts, the RFC 7617 reading gives the same user and password, and the gate passes exactly when they are the configured pair |
| Middleware.DepartsFromRfc | frontend/src/middleware.ts:17-27 | a `Bearer` header that RFC 7617 does not accept passes; for a header decoding to `u:p:`, RFC 7617 reads the password `p:`, yet the gate configured with that password refuses it |
| Middleware.RfcKeepsColonPassword | frontend/src/middleware.ts:19 | the RFC 7617 reading splits `u:p:` at its first colon only, giving the password `p:` that the gate's `split(':')` cuts short |
| EdgeMiddleware.InactiveAllowsAll | frontend/api/_middleware.js:15-18 | a missing or empty user or password lets every request through |
| EdgeMiddleware.DecideSpec | frontend/api/_middleware.js:20-46 | active: it never throws; it passes exactly when a header is present, `atob` accepts the token and both pieces equal the configured pair; otherwise it gives the 401 with body '認証が必要です / Authentication required' and both the `WWW-Authenticate` and the `Content-Type: text/plain; charset=utf-8` headers |
| EdgeMiddleware.AcceptsConfiguredPair | frontend/api/_middleware.js:22-32 | the configured pair, sent with any scheme word, is accepted |
| EdgeMiddleware.SingleWordHeader | frontend/api/_middleware.js:25-36 | a header without a space makes both gates decode "undefined"; if `atob` rejects "undefined", the Next gate throws while the edge gate answers 401 |
| EdgeMiddleware.ComparedWithNextGate | frontend/api/_middleware.js:25-36 | where both gates are active they pass the same requests; where the Next gate throws or challenges, this one challenges |
| EdgeMiddleware.DifferentSwitches | frontend/api/_middleware.js:15-18 | credentials without the flag activate only this gate; the flag with the password unset activates only the Next gate |
| DateUtils.DiffInDays | frontend/src/lib/date-utils.ts:27-28 | the day count `d` is the floor of the quotient: `d*86400000 <= ms < (d+1)*86400000` |
| DateUtils.Classify | frontend/src/lib/date-utils.ts:30-45 | today iff d = 0, yesterday iff d = 1, days iff d < 0 or 2 <= d < 7, weeks iff 7 <= d < 30, months iff 30 <= d < 365, years iff d >= 365 |
| DateUtils.ClassifyBounds | frontend/src/lib/date-utils.ts:34-45 | days are 2..6 (or negative for a future date), weeks 1..4, months 1..12, years >= 1, each the floor of d by its unit |
| DateUtils.ClassifyMonotone | frontend/src/lib/date-utils.ts:30-45 | as a past date recedes, its label never moves back towards 'today' |
| DateUtils.RenderInjective | frontend/src/lib/date-utils.ts:30-45 | different labels render as different texts |
| DateUtils.FormatRelativeTimeSpec | frontend/src/lib/date-utils.ts:24-45 | '今日' exactly when 0 <= now-t < one day, '昨日' exactly when one <= now-t < two days, and never '0年前' |
| DateUtils.FormatDateReadsBack | frontend/src/lib/date-utils.ts:10-17 | the formatted date has three `/`-pieces that parse back to year, month and day |
| Search.DeleteAllSpec | frontend/src/components/SearchBox.tsx:42 | after `delete(name)` no pair has the name, and the pairs of other names are unchanged |
| Search.SetFirstSpec | frontend/src/components/SearchBox.tsx:36 | after `set(name, v)` the name occurs once and reads back `v`, and deleting it gives what deleting it before gave |
| Search.DeleteTwice | frontend/src/components/SearchBox.tsx:42 | deleting twice is deleting once |
| Search.SetFirstKeepsOthers | frontend/src/components/SearchBox.tsx:36 | `set` leaves the value of every other name unchanged |
| Search.SetFirstAppends | frontend/src/components/SearchBox.tsx:36 | setting an absent name appends the pair |
| Search.SetFirstIdempotent | frontend/src/components/SearchBox.tsx:36 | setting the same value twice is setting it once |
| Search.SerializeEmptyIff | frontend/src/components/SearchBox.tsx:43 | `toString()` is empty exactly when no pair is left |
| Search.UrlForRoot | frontend/src/components/SearchBox.tsx:43 | the pushed address is '/' exactly when no pair is left |
| Search.UrlSearchParams.Set | frontend/src/components/SearchBox.tsx:36 | the entries become `set` of the old entries |
| Search.UrlSearchParams.Delete | frontend/src/components/SearchBox.tsx:42 | the entries become `delete` of the old entries |
| Search.SearchBox.constructor | frontend/src/components/SearchBox.tsx:20-21 | the query starts as `initialValue` verbatim, default ''; the clear button shows exactly when that value is non-empty |
| Search.SearchBox.Change | frontend/src/components/SearchBox.tsx:63-66 | the query becomes the typed value, and the clear button shows exactly when it is non-empty |
| Search.SearchBox.Submit | frontend/src/components/SearchBox.tsx:25-46 | non-blank with a callback: the callback gets the trimmed text; non-blank without one: navigate to '/?' plus the params with `search` set; blank without a callback: navigate with `search` deleted, to '/' when nothing is left; blank with one: nothing. Submitting never changes the query, and a callback text has no blank at either end |
| Search.SearchBox.Clear | frontend/src/components/SearchBox.tsx:48-54 | the query becomes '', so the clear button disappears, and the address is pushed with `search` removed, callback or not |
| Search.SearchUrl | frontend/src/components/SearchBox.tsx:35-37 | the submitted address is '/?' followed by the current parameters with `search` set to the text |
| Search.ClearedUrl | frontend/src/components/SearchBox.tsx:41-44 | the address without a search is the current parameters with every `search` pair deleted, and '/' when nothing is left |
| Search.SubmittedAddress | frontend/src/components/SearchBox.tsx:35-37 | the submitted address has the trimmed text as its only `search` value and keeps every other parameter |
| Search.ClearedAddress | frontend/src/components/SearchBox.tsx:50-53 | after clearing there is no `search` value, other parameters are kept, and the address is '/' exactly when only `search` pairs were there |
| Manuscripts.PyIntOfDecimal | scripts/sync_supabase.py:102 | `int()` gives back every integer from its decimal text, padded with white space or not |
| Manuscripts.PyIntRefuses | scripts/sync_supabase.py:101-105 | `None`, dates, collections, '' and non-numeric texts are refused by `int()` |
| Manuscripts.KeyOf | scripts/validate_data.py:57-59 | a value has a hash key exactly when it is not a collection |
| Manuscripts.KeyOfIsEquality | scripts/validate_data.py:57 | two hashable values meet in the id set exactly when Python's `==` holds between them (`True == 1`) |
| Manuscripts.SortByNameSpec | scripts/sync_supabase.py:112 | `sorted(glob)` gives the same files, ordered by name |
| ValidateData.FileErrors | scripts/validate_data.py:47-68 | one episode file adds at most one error, and only of an error kind |
| ValidateData.FileWarnings | scripts/validate_data.py:61-65 | one episode file adds only title and empty-content warnings |
| ValidateData.BlankIsEmptyAfterStrip | scripts/validate_data.py:64 | a body is blank exactly when `strip()` empties it |
| ValidateData.CheckEpisodeFiles | scripts/validate_data.py:46-68 | the loop ends with the error list, the warning list and `episode_ids` of the specification over all files |
| ValidateData.CheckEpisodeFile | scripts/validate_data.py:48-68 | one round of the file loop adds the specified errors and warnings of that file and the id set grows by its id only when it has one |
| ValidateData.ValidateNovelDirectory | scripts/validate_data.py:15-70 | the method returns the specified report for every directory, including the uncaught failure on an empty `info.yml` |
| ValidateData.EarlyReturns | scripts/validate_data.py:22-33 | a missing `info.yml` gives exactly one error and no warning; so does invalid YAML |
| ValidateData.FieldErrorsSpec | scripts/validate_data.py:35-39 | one error for a missing `title`, then one for a missing `author`, and `id` plays no part |
| ValidateData.IdNotRequired | scripts/validate_data.py:35-36 | removing `id` from `info.yml` never changes the report |
| ValidateData.NoFilesOnlyWarns | scripts/validate_data.py:42-44 | a directory with no episodes gets a warning, and no error beyond the field errors |
| ValidateData.MissingIdIsError | scripts/validate_data.py:53-54 | an episode without `id` is an error and is not added to the id set |
| ValidateData.TitleAndContentOnlyWarn | scripts/validate_data.py:61-65 | a parsed file's errors and id set depend on its `id` alone, never on its title or body |
| ValidateData.FreshIdWarnings | scripts/validate_data.py:52-65 | a file with a new hashable id adds no error, and is warned about exactly when its title is missing or its body strips to '' |
| ValidateData.CheckFilesKinds | scripts/validate_data.py:46-68 | every error and every warning of the file loop is of its list's kind |
| ValidateData.ValidationKinds | scripts/validate_data.py:15-70 | the same holds for a whole directory report |
| ValidateData.DuplicatesCounted | scripts/validate_data.py:46-59 | the id set holds exactly the ids met so far, and an id met k >= 1 times has been reported k-1 times as duplicate |
| ValidateData.DuplicateIdsInDirectory | scripts/validate_data.py:46-59 | an id occurring k >= 1 times in a directory yields k-1 duplicate errors |
| ValidateData.RunScript | scripts/validate_data.py:72-117 | the loop over the data directory ends with the specified run: usage, missing directory, crash, or the novel count with all errors and warnings |
| ValidateData.ExitStatusSpec | scripts/validate_data.py:111-117 | a completed run exits 0 exactly when every manuscript directory reported no error, so warnings alone pass; a usage error, a missing directory and a crash exit 1 |
| ValidateData.CountsBooks | scripts/validate_data.py:91-101 | the novel count is the number of book directories with a manuscript, and each book without one adds exactly one skip warning |
| SyncSupabase.ProcessNovelDirectory | scripts/sync_supabase.py:76-136 | the method builds the specified novel and episode records |
| SyncSupabase.EpisodeOf | scripts/sync_supabase.py:115-133 | one episode file yields its stamped record exactly when it parsed and the record has `id`, and nothing otherwise |
| SyncSupabase.ProcessingSpec | scripts/sync_supabase.py:81-108 | skipped exactly when `info.yml` is missing or unreadable, `id`, `title` or `author` is absent, or `int(id)` fails; a failure on an empty `info.yml`; otherwise the id becomes the integer, `updated_at` becomes now, and every other key is kept |
| SyncSupabase.TextIdConverts | scripts/sync_supabase.py:100-105 | a decimal text id, padded or not, is converted to that integer |
| SyncSupabase.EpisodeRecordsIsFilterMap | scripts/sync_supabase.py:114-133 | the episode list is the usable files, in order, each stamped |
| SyncSupabase.EpisodeRecordsStamped | scripts/sync_supabase.py:119-129 | every episode record has `novel_id` equal to the novel's integer id, `updated_at` now, an `id`, a content, and comes from a usable file |
| SyncSupabase.StampSpec | scripts/sync_supabase.py:119-122 | the stamped keys overwrite the front matter, and every other key is copied unchanged |
| SyncSupabase.EpisodesInNameOrder | scripts/sync_supabase.py:112-133 | a processed novel's episodes are its usable files in sorted-name order |
| SyncSupabase.UpsertData | scripts/sync_supabase.py:38-74 | empty data sends nothing; data holding a YAML date anywhere cannot be JSON-encoded, so `requests.post` raises a `TypeError`, which the `RequestException` handler does not catch, and nothing is sent; otherwise one POST to `<url>/rest/v1/<table>` with the headers and data, succeeding when the server accepts it |
| SyncSupabase.RunScript | scripts/sync_supabase.py:138-180 | the settings check and the loop over the data directory end with the specified run |
| SyncSupabase.CollectAll | scripts/sync_supabase.py:152-166 | the loop over the data directory ends with the specified novel and episode lists, or with the crash of the first directory that crashes |
| SyncSupabase.CollectBook | scripts/sync_supabase.py:157-166 | one entry adds the novel and the episodes of a book that processed, leaves the lists as they were for a skipped book or another entry, and crashes with its directory |
| SyncSupabase.Upload | scripts/sync_supabase.py:175-178 | the novels are sent first; the episodes follow only when there are some and the novels were accepted; the run fails when a sent request is refused, and stops with the uncaught error when a batch holds a date |
| SyncSupabase.SyncSpec | scripts/sync_supabase.py:169-178 | with no valid novel nothing is sent; the novels request comes first; episodes are sent only when there are some and the novels were accepted; no request is empty and every sent request is JSON-encodable; the exit code is 0 exactly when every sent request was accepted; a run that stops on an unencodable batch has sent at most the accepted, non-empty novels request |
| SyncSupabase.UploadsSpec | scripts/sync_supabase.py:175-178 | for non-empty novels: the novels request is first and non-empty, episodes go second only after accepted novels, every sent batch is JSON-encodable, exit code 0 exactly when all sent requests were accepted, and a run stopped by a date has sent at most the accepted novels |
| SyncSupabase.DatedInfoSendsNothing | scripts/sync_supabase.py:51 | a valid book whose `info.yml` has an unquoted date in a field the script keeps as it is makes the whole novels batch unencodable, so the run stops before any request |
| SyncSupabase.NovelsAreProcessed | scripts/sync_supabase.py:157-165 | `all_novels` holds exactly the novels of the books that processed successfully |
| SyncSupabase.EpisodesBelongToNovels | scripts/sync_supabase.py:162-165 | every collected episode's `novel_id` is the id of a collected novel |
| SyncSupabase.PassesValidationButSkipped | scripts/sync_supabase.py:94-98 | a directory with `title` and `author` but no `id` passes validation with no error or warning and is skipped by the sync |
| SyncSupabase.MissingIdSkipped | scripts/sync_supabase.py:94-98 | whenever `info.yml` lacks `id` the sync skips the directory, while the validator's report is the same as with an `id` |
| LegacyData.ParamOrOne | frontend/assets/js/episode.js:33-34 | `parseInt(value) \|\| 1` is never 0: missing, NaN and 0 give 1, any other number is kept |
| LegacyData.ParamOrOneSpec | frontend/assets/js/episode.js:33-34 | a missing parameter, 'abc' and '0' give 1, and a nonzero number's own text gives the number |
| LegacyData.EpisodeAddressRoundTrip | frontend/assets/js/episode.js:97 | the ids written into an episode address read back as themselves, 0 as 1 |
| LegacyData.DetailAddressRoundTrip | frontend/assets/js/episode.js:112 | the id written into a detail address reads back as itself, 0 as 1 |
| EpisodePage.LookupSpec | frontend/assets/js/episode.js:44-69 | the look-up succeeds exactly when the novel, its episode list and the episode are all present, and then yields the first strictly equal novel and episode |
| EpisodePage.EpisodeApp.constructor | frontend/assets/js/episode.js:13-16 | the page starts with both ids 1 and empty novel and episode |
| EpisodePage.EpisodeApp.GetParamsFromUrl | frontend/assets/js/episode.js:31-36 | both ids are read from the page's own address through `\|\| 1`, keeping them nonzero |
| EpisodePage.EpisodeApp.LoadEpisode | frontend/assets/js/episode.js:38-91 | on success the found novel {id, title} and episode {id, title, content}; on any failure the 'データ読み込みエラー' novel and the one-paragraph error episode; both always carry the page's ids |
| EpisodePage.EpisodeApp.Init | frontend/assets/js/episode.js:6-10 | after reading the address and loading, the shown novel and episode are the ones the data holds under the address's ids, or the placeholders for those ids when the data has no such pair |
| EpisodePage.EpisodeApp.GoToPrevEpisode | frontend/assets/js/episode.js:93-99 | navigates to the previous episode only when `episodeId > 1`, otherwise nothing changes |
| EpisodePage.EpisodeApp.GoToNextEpisode | frontend/assets/js/episode.js:101-107 | navigates to the next episode only when `episodeId < 10`, otherwise nothing changes |
| EpisodePage.EpisodeApp.BackToDetails | frontend/assets/js/episode.js:109-113 | navigates to the detail page of the same novel |
| EpisodePage.PrevOpensPreviousEpisode | frontend/assets/js/episode.js:93-99 | the page 'previous' opens reads the same novel and the episode before |
| EpisodePage.NextOpensNextEpisode | frontend/assets/js/episode.js:101-107 | the page 'next' opens reads the same novel and the episode after, except from episode -1, whose successor 0 reads as 1 |
| EpisodePage.BackOpensSameNovel | frontend/assets/js/episode.js:109-113 | the table of contents opened reads back the same novel |
| NovelDetailPage.DetailSpec | frontend/assets/js/novel-detail.js:29-51 | found exactly when some novel has the id; the first such is copied (id, title, author, summary), and its contents are the novel's episode entries projected to {id, title, postDate} in order, or [] without an entry |
| NovelDetailPage.NovelDetailApp.constructor | frontend/assets/js/novel-detail.js:13-14 | the page starts with id 1 and an empty novel |
| NovelDetailPage.NovelDetailApp.GetNovelIdFromUrl | frontend/assets/js/novel-detail.js:17-21 | the id is `parseInt(id) \|\| 1` of the page's address |
| NovelDetailPage.NovelDetailApp.LoadNovelDetail | frontend/assets/js/novel-detail.js:23-65 | on success the found novel; otherwise the fallback titled 'データ読み込みエラー' with author '不明' and no episodes; either way it carries the page's id |
| NovelDetailPage.NovelDetailApp.Init | frontend/assets/js/novel-detail.js:6-10 | after reading the address and loading, the shown novel is the data's detail for the address's id, or the placeholder for that id when there is none |
| NovelDetailPage.NovelDetailApp.OpenEpisode | frontend/assets/js/novel-detail.js:67-71 | navigates to `episode.html?novelId=<novel.id>&episodeId=<id>`, with 'undefined' before loading |
| NovelDetailPage.OpenedEpisodeReadsBack | frontend/assets/js/novel-detail.js:70 | the episode page opened reads back this novel and that episode |
| NovelDetailPage.UnloadedOpensNovelOne | frontend/assets/js/novel-detail.js:70 | before loading, the address carries 'undefined', which the episode page reads as novel 1 |
| NovelListPage.FilteredSpec | frontend/assets/js/app.js:16-23 | a novel is listed exactly when it is loaded and its lower-cased title contains the lower-cased query; the list is an order-preserving subsequence |
| NovelListPage.EmptyQueryShortcut | frontend/assets/js/app.js:17-19 | the empty-query shortcut returns what the filter itself would |
| NovelListPage.QueryCaseIgnored | frontend/assets/js/app.js:20-22 | lower-casing the query changes nothing |
| NovelListPage.FallbackFoundByTitle | frontend/assets/js/app.js:35-43 | the fallback novel is found by a part of its title |
| NovelListPage.NovelApp.constructor | frontend/assets/js/app.js:12-13 | the page starts with no novels and an empty query |
| NovelListPage.NovelApp.LoadNovels | frontend/assets/js/app.js:26-45 | the loaded novels, or on failure exactly the one fallback novel |
| NovelListPage.NovelApp.OpenNovel | frontend/assets/js/app.js:51-55 | navigates to `novel-detail.html?id=<id>` |
| NovelListPage.OpenedNovelReadsBack | frontend/assets/js/app.js:54 | the detail page opened reads back the novel's id |

## Left out

- QueriesMock.MockSearch: `novel.author?.toLowerCase()` (queries.mock.ts:29) is plain access here. In types.ts `author` is a required string, so the case of a missing author does not arise.
- Text.ParseInt: ids and page numbers are exact integers. JavaScript numbers are doubles, which hold every integer exactly only for |n| ≤ 2^53 (9007199254740992), so `parseInt` of a longer digit text rounds.
- Text.ShowInt: `${n}` and `toString()` are exact decimal rendering. JavaScript renders exactly only for |n| ≤ 2^53, and larger numbers may come out in exponent form.
- LegacyData.EpisodeAddressRoundTrip, LegacyData.DetailAddressRoundTrip: the round trips hold in the program only for ids and numbers with |n| ≤ 2^53, the range of exact double integers.
- EpisodePage.PrevOpensPreviousEpisode, EpisodePage.NextOpensNextEpisode, EpisodePage.BackOpensSameNovel: the ids read back as stated only for |n| ≤ 2^53 in the program, which has double arithmetic.
- NovelDetailPage.OpenedEpisodeReadsBack, NovelListPage.OpenedNovelReadsBack: the ids read back as stated only for |n| ≤ 2^53 in the program.
- Queries.NovelDetailOf: `n.id.toString()` is compared as exact decimal text, which JavaScript produces only for ids with |n| ≤ 2^53.
- Text.Lower: `toLowerCase` maps only the ASCII letters. Other scripts' case mappings (full-width Latin letters, Greek and so on) are not modelled. Japanese text has no case, so it is unaffected.
- Search.Serialize: percent-encoding (the application/x-www-form-urlencoded serializer) is the parameter `encode`. Reading a query string back in the Alpine pages assumes values that need no decoding.
- DateUtils.FormatRelativeTime: the millisecond difference is an integer. JavaScript's floating-point division is exact for the given divisors at these magnitudes.
- DateUtils.FormatDate: `new Date` parsing, the clock, the time zone and `toLocaleDateString` are replaced by an optional calendar day.
- The live Supabase branches (queries.ts:113-147 and 183-280), `server.ts` and `client.ts` are calls into a library. Only the page bounds of the live branch are modelled.
- `Promise.all` in the live `getNovelDetail` is concurrency and is not modelled.
- I/O is outside the model. Each of the following is a parameter instead:
  - `fetch('novels.json')` and `response.json()`;
  - the YAML and front-matter parsers;
  - the file system (`exists`, `iterdir`, `glob`);
  - `requests.post` (`accepts`);
  - logging and `print`.
- The order of `iterdir` is the given order of the entries.
- SyncSupabase.Processing: `datetime.now()` is one `now` text per run. The source reads the clock once per novel and once per episode.
- Manuscripts.InfoFile: a YAML document that is neither a mapping nor empty (a list, a scalar) is not modelled. An empty one raises `TypeError` on key tests and is modelled as a crash.
- Manuscripts.PyInt: `int()` of floats, of texts with `_` separators, and of non-ASCII digits is not modelled. Floats are not part of `Value`.
- Manuscripts.Record: YAML mappings are modelled with string keys only.
- `searchNovels` in app.js only logs, so it has no model.
- `window.location` outside `href` is not modelled.
- The asynchronous interleaving of `init` is not modelled: loading is one step after the address is read.
- The middleware `matcher` configuration and the no-effect `url.pathname` rewrite (middleware.ts:31) are routing configuration.
- The React components that only render props are left out, and so is the JSX of SearchBox apart from the condition `{query && …}` for the clear button (Search.SearchBox.ShowsClearButton).

## Findings

| source | as written | input that shows it | evidently intended | confidence | as-written member | corrected member |
|---|---|---|---|---|---|---|
| frontend/src/lib/supabase/queries.mock.ts:57 | `mockEpisodes.find(e => e.id === id)` compares the numeric episode id with the string parameter | any call, e.g. `mockGetEpisodeById("1")` with an episode of id 1 | compare with `parseInt(id)`, like `mockGetNovelById` and `mockGetEpisodesByNovelId` | not executed | QueriesMock.EpisodeByIdAsWrittenNeverFinds | QueriesMock.EpisodeByIdSpec |
