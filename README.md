# hiltibjjvas video library: a Dafny model of its sync and listing core

The application is a video library for a Brazilian jiu-jitsu club. It mirrors a
YouTube playlist into Firestore and shows the videos on a few pages. This project
models the parts of it that make decisions:

- **Title classification** (`TitleClassifier`). A raw playlist title such as
  `"Armbar från Guard, Måndag, Armbar"` is split on commas and each part is trimmed.
  The first part, when non-empty, becomes the display title with its first
  character upper-cased; otherwise the raw title is shown. Each later non-empty
  part becomes either a collection label, when its lower-case form is a key of the
  `COLLECTION_TAGS` table, or a capitalised tag; empty parts are skipped. Both lists are
  de-duplicated and keep first-seen order. The record also gets a thumbnail
  (maxres, then high, then medium) and a watch link.
- **Playlist fetch** (`PlaylistFetch`). The `do … while` paging loop maps every item,
  drops the `"Private video"` / `"Deleted video"` placeholders, and stops at the
  last page or at 200 videos. A skipped configuration or any failed request gives
  `[]`.
- **Store and auto-sync** (`VideoStore`). The `videos` collection is a map from id to
  record, and the `system/youtube_sync` document holds `lastSynced`. `saveVideos`
  is an atomic batch of merge writes plus the timestamp. `getSavedVideos` is the
  `publishedAt`-descending listing. `getVideoById` finds a record in it.
  `getVideosWithAutoSync` applies the one-hour cooldown policy.
- **Manual sync action** (`SyncAction`). `syncYoutubeVideos` chooses its result
  from the fetch, the save and the revalidation calls.
- **Pages** (`HomePage`, `VideoGrid`, `VideoCard`). These cover:
  - the home page's query/date filter over its six sample videos, and its
    "latest two, then the rest" layout;
  - the grid's case-insensitive title search;
  - the card's two-tag row, its `+N` badge, and the tag slug
    `toLowerCase().replace(/[^a-z0-9]+/g, '-')`.

JavaScript string behaviour is modelled in `JsStrings`:
- `split` always returns at least one part;
- `trim` uses the ECMAScript white-space and line-terminator set;
- `includes` is modelled, along with `toLowerCase`/`toUpperCase` on ASCII and Latin-1.

`[...new Set(xs)]` and `filter` are modelled in `Seqs`.

The network, the Firestore client and the clock are parameters:
- a playlist fetch reads a sequence of responses, where response `k` answers request `k`;
- the store operations take flags saying whether the query, the read or the commit succeeds;
- the clock readings are passed in as integers.

Three behaviours of the code are worth stating:

- Collections and tags are not always disjoint. For
  `"X, Måndag, Måndagspass"`, `"Måndagspass"` is in both lists:
  `TitleClassifier.CollectionsAndTagsMayOverlap` proves it.
- The de-duplicated lists keep first-occurrence order, which `Set` iteration
  guarantees: `TitleClassifier.ClassifyDistinctInFirstSeenOrder` proves it.
- A manual sync whose fetch failed upstream does not report a failure. The fetch
  swallows the error and returns `[]`, the empty list is saved (which stamps
  `lastSynced`), and the action reports success with count 0:
  `SyncAction.UpstreamFailureReportsSuccess` proves it.

## Model

| member | source | states |
|---|---|---|
| JsStrings.Trim | src/lib/youtube.ts:112 | `trim` leaves no white space at either end |
| JsStrings.TrimInfix | src/lib/youtube.ts:112 | `trim` returns a slice of its input with only white space cut from either end |
| JsStrings.TrimStartSuffix | src/lib/youtube.ts:112 | trimming the start removes only leading white space and keeps the rest as it is |
| JsStrings.TrimEndPrefix | src/lib/youtube.ts:112 | trimming the end removes only trailing white space and keeps the rest as it is |
| JsStrings.Split | src/lib/youtube.ts:112 | `split(',')` returns at least one part, and no part contains a comma |
| JsStrings.JoinSplit | src/lib/youtube.ts:112 | `split(',')` loses nothing: joining its parts with `,` gives back the title |
| JsStrings.SplitJoin | src/lib/youtube.ts:112 | splitting parts that contain no separator, joined by it, gives back those parts |
| JsStrings.SplitFirstPiece | src/lib/youtube.ts:112-114 | the first part is the prefix up to the first comma, or the whole title |
| JsStrings.ContainsAt | src/app/page.tsx:67-69 | `includes` holds exactly when the substring occurs at some index |
| JsStrings.LowerCapitalize | src/lib/youtube.ts:128-136 | under the modelled ASCII and Latin-1 case mapping, lower-casing a capitalised segment gives the lower-cased segment |
| JsStrings.ContainsPrefixOfSub | src/components/VideoGrid.tsx:16 | a string that includes `a + b` includes `a` |
| Seqs.Filter | src/lib/youtube.ts:157 | `filter` keeps exactly the elements that pass the test and is no longer than its input |
| Seqs.FilterIsSubsequence | src/lib/youtube.ts:157 | `filter` keeps the order of the elements it keeps |
| Seqs.Dedup | src/lib/youtube.ts:151-152 | `[...new Set(xs)]` has the same elements as `xs` and no repeats |
| Seqs.DedupFirstSeenOrder | src/lib/youtube.ts:151-152 | the de-duplicated list orders elements by first occurrence |
| Seqs.DedupIsSubsequence | src/lib/youtube.ts:151-152 | the de-duplicated list is a sublist of the original |
| TitleClassifier.CollectionOf | src/lib/youtube.ts:128-132 | a segment's collection label, when it has one, is one of the table's labels |
| TitleClassifier.TagOf | src/lib/youtube.ts:126-137 | a segment becomes a tag exactly when it is non-empty and not a table key; the tag has the segment's length |
| TitleClassifier.PickThumbnail | src/lib/youtube.ts:145-148 | the thumbnail is maxres if truthy, else high, else medium, else `""`; empty exactly when none is truthy |
| TitleClassifier.ItemToVideo | src/lib/youtube.ts:141-153 | the record has all optional fields, and its link is the watch URL prefix followed by the video id |
| TitleClassifier.ItemRecordFields | src/lib/youtube.ts:142-152 | `originalTitle` is the raw title; id, `publishedAt` and thumbnail come from the item; title and lists are the classification's |
| TitleClassifier.ToVideo | src/lib/youtube.ts:106-154 | the `map` callback builds exactly the record `ItemToVideo` describes |
| TitleClassifier.SortLabels | src/lib/youtube.ts:120-139 | the loop that pushes to `collections`/`tags` leaves exactly the lists `SortSegments` describes for the later segments |
| TitleClassifier.TitleRule | src/lib/youtube.ts:112-143 | the title is the trimmed text before the first comma with its first character upper-cased and the rest unchanged; if that text is empty, the raw title |
| TitleClassifier.TitleEmptyIff | src/lib/youtube.ts:114-143 | the title is empty only for an empty raw title |
| TitleClassifier.SortSegmentsCount | src/lib/youtube.ts:124-139 | each non-empty later segment is pushed to exactly one list |
| TitleClassifier.SortSegmentsMembers | src/lib/youtube.ts:124-139 | a label is pushed to `collections` (`tags`) exactly when some later segment maps (capitalises) to it |
| TitleClassifier.ClassifyMembers | src/lib/youtube.ts:124-152 | the same rule, after de-duplication, for a whole raw title |
| TitleClassifier.ClassifyDistinctInFirstSeenOrder | src/lib/youtube.ts:151-152 | both lists are repeat-free sublists of what was pushed, in first-push order |
| TitleClassifier.CollectionsInTable | src/lib/youtube.ts:58-70 | every collection label is a value of `COLLECTION_TAGS` |
| TitleClassifier.NoCommaNoLabels | src/lib/youtube.ts:112-124 | a title without a comma has no collections and no tags |
| TitleClassifier.ArmbarExample | src/lib/youtube.ts:112-152 | `"Armbar från Guard, Måndag, Armbar"` gives title `"Armbar från Guard"`, collections `["Måndagspass"]`, tags `["Armbar"]` |
| TitleClassifier.CollectionsAndTagsMayOverlap | src/lib/youtube.ts:124-139 | `"X, Måndag, Måndagspass"` puts `"Måndagspass"` in both lists |
| TitleClassifier.PrivateVideoExample | src/lib/youtube.ts:112-152 | `"Private video"` classifies to itself with no labels |
| TitleClassifier.LowerCasePrivateTitle | src/lib/youtube.ts:116-143 | an uploaded title `"private video"` is displayed as `"Private video"` |
| TitleClassifier.ConstructorSegmentAsWritten | src/lib/youtube.ts:131-132 | as written, the segment `"Constructor"` pushes the inherited `Object` constructor; the own-key lookup makes it the tag `"Constructor"` |
| TitleClassifier.LookupAgreesOnOwnKeys | src/lib/youtube.ts:131-132 | for the table's own keys, the lookup as written and the own-key lookup push the same label |
| PlaylistFetch.FetchChannelVideos | src/lib/youtube.ts:72-170 | the paging loop returns exactly `PlaylistVideos`; it sends no request exactly when the configuration is unusable |
| PlaylistFetch.MapItems | src/lib/youtube.ts:106-154 | `items.map` converts every item, in order |
| PlaylistFetch.FetchedRecordsListed | src/lib/youtube.ts:141-157 | no fetched record is titled `"Private video"` or `"Deleted video"`, and every one has all its optional fields |
| PlaylistFetch.PrivateItemDropped | src/lib/youtube.ts:157 | an item titled `"Private video"` or `"private video"` contributes nothing |
| PlaylistFetch.FetchBounded | src/lib/youtube.ts:159-162 | with at most 50 items a page, the fetch returns fewer than 250 videos |
| PlaylistFetch.FailureDiscardsEarlierPages | src/lib/youtube.ts:98-101 | a failed request anywhere the loop reaches gives `[]`, never a partial list |
| PlaylistFetch.FetchReturnsWholePages | src/lib/youtube.ts:157-162 | a successful fetch returns the kept records of a run of whole pages starting at the first, ending at one with no next token or at 200 or more videos |
| PlaylistFetch.StopPage | src/lib/youtube.ts:162 | from a reached request, the loop stops after a page that has no next token or brings the total to 200 or more |
| VideoStore.StrLtTransitive | src/lib/youtube.ts:202 | string order is transitive |
| VideoStore.StrLtTotal | src/lib/youtube.ts:202 | any two different strings are ordered |
| VideoStore.FirstExists | src/lib/youtube.ts:200-203 | every non-empty collection has a document the query returns first |
| VideoStore.Listing | src/lib/youtube.ts:198-206 | the listing has one entry per stored key, holds every stored document and nothing else, and never increases in `publishedAt` |
| VideoStore.FindById | src/lib/youtube.ts:214 | `find` returns a listed record with that id, and nothing exactly when none has it |
| VideoStore.ListingFind | src/lib/youtube.ts:212-215 | in a store keyed by id, finding an id in the listing finds its stored document |
| VideoStore.Merge | src/lib/youtube.ts:176-178 | a merge write replaces the required fields and keeps each optional field the written record leaves out |
| VideoStore.UpsertAllKeys | src/lib/youtube.ts:176-179 | after the batch, the keys are the old ones plus the written ids, every document is still under its own id, and unwritten documents are unchanged |
| VideoStore.UpsertTwice | src/lib/youtube.ts:176-178 | writing the same record twice leaves the document one write leaves |
| VideoStore.UpsertAllOverlay | src/lib/youtube.ts:176-179 | a batch of complete records overrides the stored documents with its own last write per id |
| VideoStore.UpsertAllIdempotent | src/lib/youtube.ts:176-179 | re-running a batch of complete records changes nothing |
| VideoStore.UpsertAllStoresLast | src/lib/youtube.ts:176-179 | a complete record written last under its id is stored exactly |
| VideoStore.Store.SaveVideos | src/lib/youtube.ts:172-195 | a successful commit applies every merge write and stamps `lastSynced` with the clock; a failed commit changes nothing and returns false |
| VideoStore.Store.GetSavedVideos | src/lib/youtube.ts:198-210 | the ordered listing, or `[]` when the query fails |
| VideoStore.Store.GetVideoById | src/lib/youtube.ts:212-215 | the stored record with that id, else none; also none when the listing query fails |
| VideoStore.Store.GetVideosWithAutoSync | src/lib/youtube.ts:217-249 | fetches exactly when the sync document was read and the cooldown has passed or the cache is empty; returns `Served`; saves only a non-empty fetch |
| VideoStore.FreshCacheServed | src/lib/youtube.ts:229-230 | within the hour, a non-empty cache is served without a fetch |
| VideoStore.HalfHourNoFetch | src/lib/youtube.ts:229-234 | thirty minutes after the last sync, a non-empty cache is not refreshed |
| VideoStore.CooldownBoundary | src/lib/youtube.ts:230 | exactly one hour later is still inside the cooldown; one millisecond more is not |
| VideoStore.StaleFailedFetchServesCache | src/lib/youtube.ts:230-243 | ninety minutes later a fetch is attempted, and an empty fetch serves the cache |
| VideoStore.EmptyCacheForcesFetch | src/lib/youtube.ts:234-236 | an empty cache forces a fetch however recent the last sync |
| VideoStore.NeverSyncedIsStale | src/lib/youtube.ts:223-230 | a missing sync document reads as 0, so it is stale |
| VideoStore.ServedNeverWorse | src/lib/youtube.ts:236-248 | the served list is the cache or a non-empty fetch, and it is empty only when the cache is |
| VideoStore.SyncedRecordsStoredExactly | src/lib/youtube.ts:236-240 | after a sync, every fetched id's document is the last record fetched under it |
| VideoStore.RepeatedSyncHarmless | src/lib/youtube.ts:236-240 | saving the same fetch twice leaves what one save leaves |
| SyncAction.SyncYoutubeVideos | src/app/actions.ts:6-21 | the action's result is `Outcome` of the fetch and the save; paths are revalidated only after a successful save; the store is updated exactly when the commit succeeds |
| SyncAction.SuccessReportsFetch | src/app/actions.ts:14 | a success reports the fetched count and the first `min(5, n)` videos |
| SyncAction.SuccessIff | src/app/actions.ts:11-19 | success exactly when the save and both revalidations succeed |
| SyncAction.FailureMessages | src/app/actions.ts:16-19 | a failed save reports `'Failed to save videos'`; an error thrown after it reports `'Sync failed'` |
| SyncAction.UpstreamFailureReportsSuccess | src/app/actions.ts:8-14 | a fetch that failed upstream still reports success with count 0 |
| SyncAction.FailedManualSyncDefersAutoSync | src/lib/youtube.ts:229-230 | the stamp of a manual sync, even an empty one, holds off auto-sync of a non-empty cache for an hour |
| HomePage.MatchesQueryIff | src/app/page.tsx:62-69 | a video matches exactly when the query is empty or occurs in its lower-cased title, a tag or its instructor |
| HomePage.NoFilterKeepsAll | src/app/page.tsx:65-74 | with no query and no date, every video is listed in order |
| HomePage.DateFilterExact | src/app/page.tsx:63-71 | a date keeps exactly the videos of that date |
| HomePage.EmptyDateIgnored | src/app/page.tsx:71 | an empty `date` filters nothing |
| HomePage.RepeatedParamsIgnored | src/app/page.tsx:62-63 | a repeated `q` or `date` counts as absent |
| HomePage.FilteredIsSublist | src/app/page.tsx:65-74 | the listed videos are an order-preserving sublist of the samples, each passing both filters |
| HomePage.ViewCases | src/app/page.tsx:98-132 | empty state exactly when nothing matches; a search shows all matches; the default view's two slices together are all matches |
| HomePage.DefaultPage | src/app/page.tsx:113-129 | without parameters the page shows samples 1-2, then 3-6, under "Senaste passet" |
| HomePage.DateExample | src/app/page.tsx:63-71 | `date=2023-10-24` finds the first two samples |
| VideoGrid.GridFilterIff | src/components/VideoGrid.tsx:15-17 | a video is shown exactly when the lower-cased query occurs in its lower-cased title; order is kept |
| VideoGrid.EmptyQueryKeepsAll | src/components/VideoGrid.tsx:13-17 | the empty search box shows every video |
| VideoGrid.QueryCaseIgnored | src/components/VideoGrid.tsx:16 | the case of the query does not matter |
| VideoGrid.LongerQueryNarrows | src/components/VideoGrid.tsx:15-17 | typing more never brings back a hidden video |
| VideoGrid.GridLinks | src/components/VideoGrid.tsx:34-39 | the no-match message shows exactly when nothing matches; each link leads to its video's page |
| VideoCard.VideoHrefRoundTrip | src/components/VideoCard.tsx:18 | a card's link names its own video, and different videos get different links |
| VideoCard.DropRun | src/components/VideoCard.tsx:79 | what is left is empty or starts with a letter or digit |
| VideoCard.DropRunSuffix | src/components/VideoCard.tsx:79 | removes exactly the leading run of characters outside `a-z0-9` |
| VideoCard.ReplaceRuns | src/components/VideoCard.tsx:79 | the result is no longer than the input and starts with the input's first letter or digit, or with a dash |
| VideoCard.ReplaceRunsForm | src/components/VideoCard.tsx:79 | the result uses only `a-z`, `0-9` and `-` and has no `--` |
| VideoCard.ReplaceRunsKeepsAlphanumerics | src/components/VideoCard.tsx:79 | the replacement keeps every letter and digit, in order |
| VideoCard.ReplaceRunsSplitsAtRun | src/components/VideoCard.tsx:79 | each maximal run of characters outside `a-z0-9` becomes exactly one dash, and the text on either side is replaced on its own |
| VideoCard.ReplaceRunsFixed | src/components/VideoCard.tsx:79 | a string already in slug form is unchanged |
| VideoCard.SlugShape | src/components/VideoCard.tsx:79 | a slug's alphabet is `a-z0-9-`, it has no `--`, it keeps the lower-cased letters and digits, and it is its own slug |
| VideoCard.MondaySlug | src/components/VideoCard.tsx:79 | `"Måndagspass"` becomes `"m-ndagspass"` |
| VideoCard.SlugsCollide | src/components/VideoCard.tsx:79 | `"No-Gi"` and `"no gi"` share the slug `"no-gi"` |
| VideoCard.TagRowAccountsForAll | src/components/VideoCard.tsx:76-89 | at most the first two tags are shown; the badge appears exactly when some are hidden and counts them |
| VideoCard.CardContents | src/components/VideoCard.tsx:18-84 | a card links to its video, labels and links each shown tag, and hides the duration `"Video"` |

## Left out

- JsStrings.LowerCapitalize: holds only for the modelled case mapping. Under full Unicode, `ß` upper-cases to `SS` and `µ` to U+039C, and neither lowers back. The same goes for `ı` and `ſ`, which upper-case to `I` and `S`.
- Network I/O is left out: URL building, `fetch`, HTTP status and JSON decoding. A
  page request is answered by the next element of a sequence of responses. A failed
  status, a rejected fetch or a bad body is one `Unavailable` response. A request
  past the end of the sequence counts as failed.
- The `pageToken` value sent with each request is not modelled. Response `k`
  answers request `k`, whatever token was sent.
- Firebase initialisation and the stub client in `src/lib/firebase-admin.ts` are not
  part of this model. The stub's behaviour is covered by the flags:
  - its listing query throws, which is `listOk = false`;
  - it has no batch, which is `commitOk = false`;
  - its sync document is absent, which is `lastSynced = None`.
- Firestore is modelled as one map of records and one optional timestamp. Document
  fields other than the `Video` ones, write limits and transactions are not
  modelled. The batch is atomic, as the code assumes.
- `Date.now()` is a parameter. `saveVideos` reads the clock while staging the batch:
  `GetVideosWithAutoSync` takes that second reading as `saveClock`, and
  `SyncYoutubeVideos` as `clock`. Timestamps are integers: fractional or `NaN`
  values of `lastSynced` are not modelled.
- `console` logging is not modelled. `revalidatePath` is recorded only as the list
  of paths revalidated; its cache effect is not modelled.
- Concurrency is not modelled: two requests can auto-sync at once. It is not
  observable in a sequential model. `VideoStore.RepeatedSyncHarmless` states what a
  repeated save leaves.
- JsStrings.Lower: `toLowerCase` is modelled on ASCII and Latin-1 letters only
  (`À`–`Þ` except `×`). Other code points are unchanged, so the full Unicode
  mapping is not modelled.
- JsStrings.Capitalize: `toUpperCase` is modelled on ASCII and Latin-1 only. The
  expansions and special cases of the Unicode mapping are not modelled: `ß` to
  `SS`, `ÿ` to `Ÿ`, `µ` to `Μ`.
- TitleClassifier.Segments: its own contract states only the number of segments.
  What each segment is follows from `Trim` and `Split`, through the lemmas that
  use it.
- VideoStore.Listing: the contract states the contents and the `publishedAt`
  order. The tie-break on the document key is in the definition (`Precedes`) but
  is not restated in the contract.
- VideoStore.UpsertAllIdempotent: idempotence of a whole batch is proved for
  complete records, the only kind the fetch produces. For a record with missing
  optional fields, only the single-write case is proved (`UpsertTwice`).
- The page markup is not modelled: class names, icons, images, date formatting and
  the count sentence. Only what is shown and where it links is modelled.
- `thumbnailUrl` is never passed by the home page. `CardFor` takes it as an
  optional value.

## Findings

| source | as written | input that shows it | evidently intended | confidence | as-written member | corrected member |
|---|---|---|---|---|---|---|
| src/lib/youtube.ts:131-132 | `COLLECTION_TAGS[lowerPart]` reads an object literal, so it also finds members inherited from `Object.prototype`. A segment whose lower-case form is `constructor` or `__proto__` passes the truthiness test. Its pushed value is a function or object, not a label. | raw title `"Armbar, Constructor"` | an own-key lookup: such a segment is the tag `"Constructor"` | high; not executed | TitleClassifier.ConstructorSegmentAsWritten | TitleClassifier.CollectionOf |
