# College and cutoff services: cache-aside reads over an ordered document store

This project models, in Dafny, the service layer of a college-admissions
backend. The layer has two services over collections of a document store.

- **CollegeService** (`src/services/college.service.js`) fronts the colleges
  collection with a key/value cache. Each read first looks up its key. On a
  hit it answers the cached value. On a miss it computes the answer from the
  collection and stores it with an expiry. The reads are:
  - one college by id, cached for an hour;
  - a cursor-paginated list ordered by `instituteCode`, cached for a day;
  - a two-stage search, cached for a day. Store-side equality filters come
    first, then an in-memory keyword/name substring filter, then offset
    pagination over the filtered list.

  Update and delete check that the college exists, write the collection,
  then delete two cache keys by exact name: the college's detail key and the
  literal string `colleges:list*`. Add writes the collection and touches no
  cache entry.
- **CutoffService** (`src/services/cutoff.service.js`) does the same CRUD
  with no cache. Its list is ordered by `year`, newest first. Its search is
  an unpaginated conjunction of equality filters.
- **CACHE_KEYS / CACHE_TTL** (`src/config/constants.js`) give the key
  prefixes and the expiry times.

Search criteria are the request's query object with `page` and `limit` set
(`src/controllers/college.controller.js:61-65`). The model holds them as a
list of name/value pairs in the order JavaScript enumerates the object's
own properties, which is the order `JSON.stringify` writes them in. Names
that are array indices come first, in ascending numeric order. The other
names follow in insertion order (`Json.JsKeyOrder`).

Each service is a class. Its `docs: map<Id, Doc>` field is the collection.
The college service also has a `cache: map<string, Entry>` field, where an
entry keeps its expiry as data. Methods answer `Result` values: an `Error`
datatype stands for each exception the source raises. The store's query
engine is a loop, `DocumentStore.RunQuery`. It picks, one at a time, the
first document not yet taken, under the query's order. It is proved against
`IsResult`, a declarative description of a query's answer:
- the selected documents, strictly ordered;
- at most `limit` of them;
- no selected document left out unless the limit is reached and that
  document comes after every returned one.

Every list and search property below is proved from that description.

Ordering follows the document store's rules:
- Documents lacking the `orderBy` field are excluded.
- Values compare first by type (null, boolean, number, string, array), then
  within the type.
- Ties are broken by document id, in the direction of the last `orderBy`.
- A query without `orderBy` answers in ascending id order.

Some behaviours of the code are proved as they are written:
- **The list wildcard deletes nothing.** The cache deletes by exact key, so
  deleting `colleges:list*` removes no list page. No mutation removes a
  search result either. Cached list pages and searches therefore survive
  every update and delete (`Colleges.InvalidateSparesPagesAndSearches`). The
  code marks these two deletes `// Invalidate caches`
  (`src/services/college.service.js:114`), but with exact-key deletes only
  the detail entry is actually removed.
- **Cached records stay correct without an overwrite.** Once the records
  under detail keys agree with what a read of the collection answers
  (`Colleges.CollegeService.DetailsCoherent`), reads, updates, deletes and
  adds under a new id keep them agreeing. A service started over a cache
  that agrees with the collection (an empty cache, for one) starts in that
  state. An add under an existing id keeps the old cached record
  (`Colleges.AddOverCachedRecordGoesStale`).
- **A falsy `"id"` field overwrites the returned id.** When the payload of an
  add holds a falsy `"id"` (an empty string, null, 0 or false), the returned
  record carries that value instead of the generated id
  (`Crud.AddedRecordId`).
- **A null cursor shares a cache entry.** A list call whose cursor is the
  text `null` shares its cache entry with the cursor-less call
  (`CacheKeys.NullCursorSharesFirstPageKey`).
- **hasMore is true on an exactly full last page.** When the remaining
  documents exactly fill the page, hasMore is true and the next page is
  empty (`CursorPaging.PageSizeAndExactLastPage`).

## Model

| member | source | states |
|---|---|---|
| CacheKeys.ListKey | src/services/college.service.js:27 | a list key lies in the `colleges:list:` namespace and continues with the page, the limit and the cursor text |
| CacheKeys.DetailKey | src/services/college.service.js:79 | a detail key is `colleges:detail:` followed by exactly the id |
| CacheKeys.SearchKey | src/services/college.service.js:148 | a search key is `colleges:search:` followed by the JSON text of the criteria |
| CacheKeys.TtlRelations | src/config/constants.js:12-16 | ONE_DAY is 24 times ONE_HOUR and ONE_HOUR is 12 times FIVE_MINUTES |
| CacheKeys.PrefixesIndependent | src/config/constants.js:1-9 | the list, detail and search prefixes are not prefixes of one another; every college prefix differs from, and is no prefix of, every cutoff prefix |
| CacheKeys.NamespacesDisjoint | src/config/constants.js:2-4 | no key lies in two of the list, detail and search namespaces, so the three reads never overwrite one another's entries |
| CacheKeys.ReservedKeysOutsideNamespaces | src/services/college.service.js:117 | `colleges:list*` and the version and updates keys lie in none of the three namespaces |
| CacheKeys.InvalidationSparesListsAndSearches | src/services/college.service.js:116-117 | neither key a mutation deletes is a list key or a search key |
| CacheKeys.ListKeyInjective | src/services/college.service.js:27 | two list keys are equal exactly when page, limit and cursor text are equal |
| CacheKeys.NullCursorSharesFirstPageKey | src/services/college.service.js:27 | the cursor id "null" and the absent cursor give the same list key |
| CacheKeys.DetailKeyInjective | src/services/college.service.js:79 | two detail keys are equal exactly when the ids are |
| CacheKeys.ReorderedCriteriaUseAnotherEntry | src/services/college.service.js:148 | two objects holding the same criteria, no name given twice, whose enumeration orders differ (the non-index names inserted in another order) give two different search keys |
| CacheKeys.IndexNamedCriteriaShareEntry | src/services/college.service.js:148 | criteria whose names are all array indices have one enumeration order, so they share one search key whatever order they were inserted in |
| Json.IndexHeadsAgree | src/services/college.service.js:148 | two enumerations of the same members that start with an array-index name start with the same member |
| Json.IndexNamesHaveOneOrder | src/services/college.service.js:148 | members whose names are all array indices are enumerated in exactly one order |
| Json.StringifyObject | src/services/college.service.js:148 | the JSON text of an object is enclosed in braces, and is `{}` exactly when the object has no members |
| Json.EscapeChar | src/services/college.service.js:148 | JSON.stringify writes a character as itself exactly when it needs no escape |
| Json.ObjectTextStartsWithFirstName | src/services/college.service.js:148 | the serialised criteria begin with the first criterion's name |
| Json.FirstNameSeparates | src/services/college.service.js:148 | criteria whose first names start differently serialise differently |
| Json.EscapeCharShape | src/services/college.service.js:148 | an escaped character is never written starting with a quotation mark; an escaped one starts with a backslash |
| Json.EscapeCharPrefixFree | src/services/college.service.js:148 | the written forms of two different characters never start one another |
| Json.EscapePrefixFree | src/services/college.service.js:148 | escaped text followed by a quotation mark determines the string it came from |
| Json.QuotePrefixFree | src/services/college.service.js:148 | a quoted string is never a proper start of another quoted string |
| Json.MembersStartWithName | src/services/college.service.js:148 | serialised members start with the first member's quoted name |
| Json.MembersSeparate | src/services/college.service.js:148 | member lists that agree up to a point where the names differ serialise differently |
| Json.ReorderedObjectsDiffer | src/services/college.service.js:148 | the same members, no name given twice, in a different order serialise differently |
| Values.Field | src/services/college.service.js:189 | a property is defined exactly when the document has the field, with its value |
| Values.Lookup | src/services/college.service.js:157-175 | a request property is defined exactly when some entry has that name, and then it is the first such entry's value |
| Values.WithId | src/services/college.service.js:53-56 | `{id, ...data}` has the data's fields with their values plus "id", which is the document id unless the data has its own "id" |
| Values.Merge | src/services/college.service.js:111 | an update sets every patched field to its new value and keeps every other field |
| Text.Lower | src/services/college.service.js:185 | lower-casing keeps the length, shifts each ASCII capital by 32 and leaves no capital |
| Text.SplitOnSpaces | src/services/college.service.js:185 | splitting gives at least one term, no term holds whitespace, the first term is empty exactly when the text starts with whitespace, inner terms are non-empty |
| Text.SplitOnSpacesRebuilds | src/services/college.service.js:185 | the text is exactly its terms interleaved with non-empty runs of whitespace |
| Text.WeaveEndsInSpace | src/services/college.service.js:185 | text woven from whitespace-free pieces and whitespace runs ends with whitespace exactly when its last piece is empty |
| Text.TrailingSpaceGivesEmptyTerm | src/services/college.service.js:185 | the last term is empty exactly when non-empty text ends with whitespace |
| Text.SplitOnSpacesGlues | src/services/college.service.js:185 | the terms joined together are the text with its whitespace removed |
| Text.SplitOnSpacesSingle | src/services/college.service.js:185 | there is a single term exactly when the text holds no whitespace |
| Text.LeadingSpaceGivesEmptyTerm | src/services/college.service.js:185 | text that starts with whitespace has an empty first term |
| Text.Includes | src/services/college.service.js:190 | a string includes only needles no longer than itself, and includes itself |
| Text.IncludesIff | src/services/college.service.js:190 | `includes` holds exactly when the needle occurs at some index |
| Text.EmptyIncludedEverywhere | src/services/college.service.js:190 | every string includes the empty string |
| Text.ParseIntText | src/services/college.service.js:157-158 | `parseInt` skips leading whitespace and then parses; a number is found only when something follows the whitespace |
| Text.ParseIntOr | src/services/college.service.js:157-158 | `parseInt(x) \|\| d` is the parsed number when it parses to a non-zero integer, and the default otherwise; it is never zero |
| Text.DecimalString | src/services/college.service.js:27 | a number's text is non-empty and holds no colon or whitespace |
| Text.ParseDecimalRoundTrip | src/services/college.service.js:27 | parsing a number's decimal text gives back the number |
| Ordering.StrLessIrreflexive | src/services/college.service.js:42 | no id or string precedes itself |
| Ordering.StrLessTransitive | src/services/college.service.js:42 | the string order is transitive |
| Ordering.StrLessTotal | src/services/college.service.js:42 | of two different strings one precedes the other |
| Ordering.ValueLessIrreflexive | src/services/college.service.js:42 | no value precedes itself in the store's value order |
| Ordering.ValueLessTransitive | src/services/college.service.js:42 | the store's value order is transitive |
| Ordering.ValueLessTotal | src/services/college.service.js:42 | of two different values one precedes the other |
| DocumentStore.PrecedesIrreflexive | src/services/college.service.js:41-43 | no document precedes itself in a query order |
| DocumentStore.PrecedesTransitive | src/services/college.service.js:41-43 | a query order, with its id tiebreak, is transitive |
| DocumentStore.PrecedesAsymmetric | src/services/college.service.js:41-43 | two documents never precede each other |
| DocumentStore.PrecedesTotal | src/services/college.service.js:41-43 | of two documents with different ids one precedes the other |
| DocumentStore.PickFirst | src/services/college.service.js:51 | the document picked is among the candidates and precedes every other candidate |
| DocumentStore.RunQuery | src/services/college.service.js:51 | `query.get()` answers the selected documents in order, at most limit of them, skipping none unless the limit is reached and it comes after all answered |
| DocumentStore.Records | src/services/college.service.js:53-56 | mapping the snapshot gives one record per returned document |
| DocumentStore.ResultUnique | src/services/college.service.js:51 | a query has exactly one answer |
| DocumentStore.ResultSize | src/services/college.service.js:41-51 | the answer has min(limit, number selected) documents, and without a reached limit it is exactly the selected set |
| DocumentStore.NextPageEntries | src/services/college.service.js:46-51 | the page after a page's last document holds selected documents not on the first page, all after it |
| DocumentStore.FollowCursor | src/services/college.service.js:46-51 | a full page followed by the page after its last document is the answer for the two limits added; after a short page nothing follows |
| DocumentStore.NothingAfterExhaustedPage | src/services/college.service.js:46-51 | once a page holds every selected document, the page after it is empty |
| CursorPaging.ListQuery | src/services/college.service.js:41-49 | the page query succeeds exactly when no cursor is given, or the cursor document exists and has the order field; it then starts after that document |
| CursorPaging.EnvelopeShape | src/services/college.service.js:58-67 | the envelope holds one record per returned id, echoes the page number and page size, sets hasMore exactly when the page is full, and names the last record's id as nextPageId, null exactly when the page is empty |
| CursorPaging.RecordsKeepOrder | src/services/college.service.js:41-56 | the records of an ordered answer all have the order field and follow the order |
| CursorPaging.ListPage | src/services/college.service.js:36-67 | one page is the cursor error, or the envelope of the store's answer to the page query |
| CursorPaging.PageNumberOnlyEchoed | src/services/college.service.js:37-64 | the page number selects nothing; it is only echoed in currentPage |
| CursorPaging.ListPageShape | src/services/college.service.js:53-66 | a page has at most limit records, all with the order field and in order; hasMore exactly when it is full; nextPageId is the last record's id, or null exactly when empty |
| CursorPaging.FollowNextPageId | src/services/college.service.js:46-59 | following nextPageId gives the records that continue the page, and nothing when hasMore is false |
| CursorPaging.PageSizeAndExactLastPage | src/services/college.service.js:58-66 | a page holds min(limit, remaining) records; when the remaining ones exactly fill it, hasMore is true and the next page is empty |
| TextFilter.KeywordHit | src/services/college.service.js:189-191 | the keyword scan finds the term at the first keyword containing it, answers false when every keyword is a string without it, and raises at the first non-string keyword before a hit |
| TextFilter.TermHit | src/services/college.service.js:188-192 | when it answers, some term occurs in some keyword exactly when it answers true; with string keywords it always answers |
| TextFilter.KeywordMatch | src/services/college.service.js:188-190 | with no terms the keywords are not read and nothing matches; absent or null keywords never match; another non-array raises |
| TextFilter.NameMatch | src/services/college.service.js:197-198 | the name test raises exactly when the name is not a string, else it tells whether the name contains the query, both lower-cased |
| TextFilter.RecordMatch | src/services/college.service.js:187-201 | a record is kept exactly when a term hits a keyword or the name contains the query; readable records never raise; a non-string name always raises |
| TextFilter.FilterRecords | src/services/college.service.js:187-201 | the filter raises exactly when some record raises; otherwise it answers the reference filter, which keeps, in order, exactly the wanted records |
| TextFilter.KeptCounts | src/services/college.service.js:187-201 | the reference filter keeps each wanted record as often as it occurs and no other record |
| TextFilter.LeadingSpaceKeepsAnyKeyword | src/services/college.service.js:185-191 | with leading whitespace in the query, any record with a string first keyword and a string name is kept |
| TextFilter.NoKeywordsMeansNameOnly | src/services/college.service.js:188-200 | a record without keywords is kept exactly when its name contains the query |
| OffsetPaging.ClampIndex | src/services/college.service.js:206 | `slice` counts a negative index from the end and clamps to the array |
| OffsetPaging.JsSlice | src/services/college.service.js:206 | a slice is a contiguous window, the plain range when the bounds are in range, and never longer than end - start |
| OffsetPaging.CeilDiv | src/services/college.service.js:214 | `Math.ceil(a / b)` is the least multiple count covering a, for either sign of b |
| OffsetPaging.Paginate | src/services/college.service.js:204-217 | the envelope reports the full filtered total, echoes page and limit, and holds a window of at most limit records |
| OffsetPaging.PaginateWindow | src/services/college.service.js:205-215 | for a positive page and limit the items start at (page-1)*limit; hasMore exactly when results follow them |
| OffsetPaging.HasMoreBeforeLastPage | src/services/college.service.js:214-215 | hasMore holds exactly on the pages before totalPages |
| OffsetPaging.NegativeLimitDropsTail | src/services/college.service.js:158-215 | a negative limit answers all but the last \|limit\| results on page 1, reports hasMore and counts no pages |
| OffsetPaging.PagesUpToPrefix | src/services/college.service.js:206 | pages 1 to n together are the first n*limit results |
| OffsetPaging.PagesCover | src/services/college.service.js:204-216 | pages 1 to totalPages together hold every result once, in order |
| EqualityFilters.SuppliedClauses | src/services/college.service.js:162-176 | each where clause is a truthy criterion on a listed field, and each truthy listed criterion has its clause |
| EqualityFilters.AddClause | src/services/college.service.js:162-176 | one `if` adds the clause of its criterion exactly when that criterion is truthy, so the clauses built so far stay a prefix of all of them |
| EqualityFilters.SuppliedMeaning | src/services/college.service.js:162-178 | the where clauses select exactly the documents equal to every truthy criterion; absent or falsy criteria do not filter |
| EqualityFilters.SearchQueryAnswer | src/services/college.service.js:162-182 | a search query answers every document meeting the criteria, each once, in ascending id order |
| CollegeSearch.SearchPageNumber | src/services/college.service.js:157 | the search page is never zero |
| CollegeSearch.SearchPageSize | src/services/college.service.js:158 | the search limit is never zero |
| CollegeSearch.BuildFilters | src/services/college.service.js:161-176 | the five ifs build one clause per truthy criterion among year, instituteCode, category, branchName, city, in that order |
| CollegeSearch.SearchFrom | src/services/college.service.js:184-217 | after the store query, the search raises a TypeError exactly when instituteName is truthy and is not a string or the name filter raises; without an instituteName it is the page of all the records |
| CollegeSearch.ComputeSearch | src/services/college.service.js:156-217 | a search miss answers the name filter and the page applied to the records of the store's answer to the equality filters |
| CollegeSearch.KeptIdsMembers | src/services/college.service.js:187-201 | the kept ids are exactly the wanted ones |
| CollegeSearch.KeptIdsAscending | src/services/college.service.js:187-201 | filtering keeps ascending ids ascending |
| CollegeSearch.FilterByIds | src/services/college.service.js:179-201 | filtering the records of an answer keeps the records of the wanted ids, in order |
| CollegeSearch.FilterFailsOnUnreadable | src/services/college.service.js:187-201 | the filter raises exactly when a matching document's record cannot be read |
| CollegeSearch.SearchFailure | src/services/college.service.js:184-201 | a search fails, with a TypeError, exactly when instituteName is supplied and is not a string, or a matching document's record cannot be read |
| CollegeSearch.SearchResult | src/services/college.service.js:156-217 | a successful search is the page, by the defaulted page and limit, of the records of exactly the matching documents in ascending id order |
| Crud.AddTarget | src/services/college.service.js:13-17 | a truthy id must be a string and names the written document; otherwise the generated id is used |
| Crud.ReadRecord | src/services/college.service.js:87-91 | a read succeeds exactly for an existing non-empty id, and answers the stored fields plus "id"; an empty id and a missing document give their own errors |
| Crud.UpdateCheck | src/services/college.service.js:104-111 | an update passes its checks exactly when the id is non-empty, the document exists and the patch is non-empty, and the failures are reported in that order |
| Crud.DeleteCheck | src/services/college.service.js:127-132 | a delete passes its checks exactly when the id is non-empty and the document exists, and the failures are reported in that order |
| Crud.AddThenRead | src/services/college.service.js:13-18 | an add fails exactly on a truthy non-string id; otherwise a read of the target id finds the returned record |
| Crud.AddedRecordId | src/services/college.service.js:15-18 | the returned record carries the written document's id unless the payload holds a falsy "id" |
| Crud.ReadRecordFields | src/services/college.service.js:87-91 | a read succeeds exactly for an existing non-empty id and answers its fields plus "id" |
| Crud.UpdateThenRead | src/services/college.service.js:104-113 | after an update the document reads back with the patched fields new and the others as before |
| Crud.DeleteThenRead | src/services/college.service.js:127-134 | after a delete the document reads as missing, a second delete fails, and other reads are unchanged |
| Colleges.CollegeService.constructor | src/services/college.service.js:6-8 | the service starts over the given collection and cache |
| Colleges.CollegeService.AddCollege | src/services/college.service.js:11-23 | an add sets the payload under its truthy string id or a fresh generated id and answers `{id, ...data}`; the cache is untouched |
| Colleges.CollegeService.GetAllColleges | src/services/college.service.js:26-75 | a hit answers the cached page unchanged; a miss answers the page of the collection by instituteCode and caches a success for a day under the list key |
| Colleges.CollegeService.GetCollegeById | src/services/college.service.js:78-99 | a hit answers the cached record; a miss answers the read and caches a found record for an hour; with coherent records the answer is always the current read |
| Colleges.CollegeService.UpdateCollege | src/services/college.service.js:102-122 | a missing or empty id, a missing college or an empty patch change nothing; otherwise the patch is merged, the re-read record answered, and only the detail key and `colleges:list*` deleted |
| Colleges.CollegeService.DeleteCollege | src/services/college.service.js:125-144 | a missing or empty id or college changes nothing; otherwise exactly that college is removed, `{id, message}` answered and only the two keys deleted |
| Colleges.CollegeService.SearchColleges | src/services/college.service.js:147-227 | a hit answers the cached search unchanged; a miss computes the search and caches a success for a day under the search key |
| Colleges.Invalidate | src/services/college.service.js:115-117 | the deletions remove the detail key and `colleges:list*`, keep every other entry with its value, and add none |
| Colleges.TwoDeletesInvalidate | src/services/college.service.js:116-117 | the two `del` calls one after the other remove exactly what Invalidate removes |
| Colleges.PutKeepsCacheValid | src/services/college.service.js:70 | storing an answer in its own namespace keeps every entry in its own namespace |
| Colleges.RemoveKeepsCacheValid | src/services/college.service.js:116-117 | deleting keys keeps every remaining entry in its own namespace |
| Colleges.PutOutsideDetailsKeepsCoherence | src/services/college.service.js:70 | caching a list page or search keeps the cached records agreeing with the collection |
| Colleges.FillKeepsCoherence | src/services/college.service.js:94 | caching the record just read keeps the cached records agreeing with the collection |
| Colleges.UpdateKeepsCoherence | src/services/college.service.js:111-117 | an update with its deletions keeps the cached records agreeing with the collection |
| Colleges.DeleteKeepsCoherence | src/services/college.service.js:134-139 | a delete with its deletions keeps the cached records agreeing with the collection |
| Colleges.InvalidateSparesPagesAndSearches | src/services/college.service.js:116-117 | the deletions remove the college's record and leave every list page and search result, unchanged |
| Colleges.AddOverCachedRecordGoesStale | src/services/college.service.js:13-14 | an add over an existing id whose record is cached leaves that entry answering the record from before the add |
| Cutoffs.CutoffService.constructor | src/services/cutoff.service.js:4-6 | the service starts over the given collection |
| Cutoffs.CutoffService.AddCutoff | src/services/cutoff.service.js:8-20 | an add sets the payload under its truthy string id or a fresh generated id and answers `{id, ...data}` |
| Cutoffs.CutoffService.GetAllCutoffs | src/services/cutoff.service.js:22-58 | a list answers the cursor error or the page of the collection by year, newest first |
| Cutoffs.CutoffService.GetCutoffById | src/services/cutoff.service.js:60-70 | a read succeeds exactly for an existing non-empty id, answering every stored field, and changes nothing |
| Cutoffs.CutoffService.UpdateCutoff | src/services/cutoff.service.js:72-87 | a failed check changes nothing; otherwise only that cutoff gets the patch and the merged record is answered |
| Cutoffs.CutoffService.DeleteCutoff | src/services/cutoff.service.js:89-103 | a failed check changes nothing; otherwise exactly that cutoff is removed and `{id, message}` answered |
| Cutoffs.CutoffService.SearchCutoffs | src/services/cutoff.service.js:105-130 | a search answers the records of the store's answer to the equality filters |
| Cutoffs.BuildCutoffFilters | src/services/cutoff.service.js:107-120 | the four ifs build one clause per truthy criterion among collegeId, year, round, category, in that order |
| Cutoffs.CutoffSearchResult | src/services/cutoff.service.js:105-126 | a cutoff search answers, in ascending id order, exactly the cutoffs equal to every supplied criterion |
| Cutoffs.NoCriteriaListsEverything | src/services/cutoff.service.js:107-126 | with no criterion the search answers one record per cutoff |

## Left out

- The HTTP layer (routes, controllers, error middleware, startup) is not part of this model. Nor is the version/update feed: the controllers call `getCollegeVersion` and `getCollegeUpdates`, but the service defines neither. `getCutoffByInstituteCode`, named by a route, is defined nowhere.
- The document store and the cache are in-memory maps. Their own failures, network errors and interleaved requests are not modelled. Every call is taken to complete, one request at a time.
- Expiry is kept as data on each entry, but entries never expire, because the model has no clock.
- Cached values are stored as the values themselves. `JSON.stringify`/`JSON.parse` on them is taken as the identity. `JSON.stringify` is modelled only where it builds the search key.
- Values are null, booleans, integers, strings and arrays. Floating-point numbers, nested objects, timestamps and the store's other value types are not modelled. Updates override top-level fields only; dotted field paths are not interpreted.
- Document ids containing `/`, and the store's other path rules, are not modelled. Only the empty id is refused.
- Lower-casing covers ASCII letters only.
- Logging (`console.dir`, `console.log`) and the wording of the wrapped error messages are not modelled. Each cause is one `Error` constructor.
- Colleges.CollegeService.GetAllColleges: page and limit are already parsed integers, and the limit is a natural number. The source builds the list key from the raw request text, so "01" and "1" use different entries there. Non-numeric or negative limits are not modelled, and a zero limit answers an empty page.
- Cutoffs.CutoffService.GetAllCutoffs: page and limit are taken as parsed integers in the same way, with a natural-number limit.
- Colleges.CollegeService.AddCollege: the generated id is a parameter. It is assumed fresh and non-empty, which is what the store guarantees.
- Cutoffs.CutoffService.AddCutoff: the generated id is a parameter, assumed fresh and non-empty in the same way.
- Colleges.CollegeService.GetCollegeById: a hit assumes that an entry under a detail key holds a record. The class invariant ensures this, since only this read writes there. The same holds for list and search hits.
