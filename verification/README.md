# GitHub starred-repository sync: verified model of its data logic

The repository is a set of Python scripts that do three things:

- they read a user's starred GitHub repositories and the curated GitHub
  "lists" the user keeps;
- they turn those into rows for a spreadsheet or a DuckDB table;
- they recommend new repositories from the topics of the starred ones.

Around the HTTP calls, HTML scraping and uploads sits a layer of pure data
logic. This project models that layer in Dafny and proves what it promises.
Every network answer is an input value:

- the starred listing is a sequence of pages;
- each per-repository endpoint (latest release, topics) is a total function
  from (owner, repo) to a response;
- a scraped list page is a request that raised, or a status with the
  repository blocks of the page;
- the search endpoint is a function from (query, page size, page number) to
  a reply, or to `Raised` when the request throws.

Modules, following the scripts:

| module | models |
|---|---|
| `Pagination` | `get_starred_repos`, which is the same in the three starred scripts |
| `GitHubApi` | `get_last_release_date`, `get_repo_topics`, and the `owner, repo = full_name.split('/')` unpacking |
| `CuratedLists` | the names-only `scrape_github_list` and both `get_curated_tags` variants. `github_sync.py` has an "ignore" exclusion list; `starred_fetcher.py` has none |
| `StarredRows` | the three row builders: `process_starred_repositories`, and the two `process_repositories` |
| `CountParsing` | `parse_number_with_suffix` ("1.2k" → 1200), computed with exact decimal arithmetic |
| `ListMerging` | `combine_repos_with_tags` and `fetch_all_lists` of the lists fetcher |
| `Topics` | reading topics back from a ", "-joined sheet cell |
| `Counting` | `collections.Counter` and `most_common()` |
| `TopicSearch` | `search_repositories_by_topic` (paging and truncation) |
| `Recommender` | `extract_topic_frequencies`, `get_recommendations`, `format_recommendations` and `main` of `repo_recommender.py` |
| `SyncRecommendations` | `generate_recommendations` of `github_sync.py` |

Supporting modules:

- `Text` holds Python's `strip`, `lower`, `split`, `join`, string order and `str(int)`.
- `Sorting` is one stable insertion sort, parameterised by a strict weak order. It stands for `sorted`, `list.sort` and `sort_values`.
- `Dicts` is an insertion-ordered `dict`.
- `Results` holds `Option`, `Result` and `Field`. An exception that aborts a script becomes an `Err`. A `Field` is a JSON member read with `.get(key, default)`: missing, null or present.

## Model

| member | source | states |
|---|---|---|
| Pagination.UsableRun | scripts/github_sync.py:70-83 | the number of leading pages that answer 200 with items: every page before it is usable and the page at it is not |
| Pagination.FetchAll | scripts/starred_fetcher.py:47-73 | pages are requested consecutively from 1; the result is the in-order concatenation of pages 1..k, where page k+1 is the first empty or non-200 page, and it is the last page requested |
| Pagination.OnePageThenEmpty | scripts/starred_repos_fetcher.py:48-65 | a full page of 100 followed by an empty page gives exactly those 100 records |
| GitHubApi.LastRelease | scripts/github_sync.py:114-121 | status 200 gives the body's `published_at` (None when absent); any other status gives a label |
| GitHubApi.ReleaseLabelRoundTrip | scripts/starred_fetcher.py:80-85 | for a failed request, 404 gives exactly "No releases"; any other status gives a label that reads back as "Error: <status>" with that status; "No releases" is never mistaken for an error label |
| GitHubApi.ReleaseLabelDeterminesStatus | scripts/starred_repos_fetcher.py:76-81 | two failed release requests get the same label only when their statuses are equal |
| GitHubApi.RepoTopics | scripts/starred_fetcher.py:87-95 | on 200, the body's `names` (default []); on any other status, [] |
| GitHubApi.SplitFullName | scripts/github_sync.py:134 | the two-name unpacking succeeds only with two '/'-free parts |
| GitHubApi.SplitFullNameJoins | scripts/starred_fetcher.py:155-156 | a name that unpacks is owner + "/" + repo |
| GitHubApi.SplitFullNameOfJoin | scripts/starred_repos_fetcher.py:101-102 | "owner/repo" with '/'-free parts unpacks into exactly owner and repo |
| GitHubApi.SplitFullNameNeedsOneSlash | scripts/github_sync.py:131-134 | a name without '/' makes the unpacking raise |
| CuratedLists.AnchoredNames | scripts/github_sync.py:95-96 | the result is None exactly when some block's anchor has no `href` (Python raises `KeyError` there). Otherwise a name is listed exactly when some block with an anchor has an href that strips to it, at most one name per block, none with '/' at either end |
| CuratedLists.ScrapeListNames | scripts/github_sync.py:88-99 | a raised or non-200 request gives [], and so does a page where an anchor lacks its `href`. On any other page a name is listed exactly when some anchored block's href strips to it, at most one per block, none with '/' at either end |
| CuratedLists.AnchorlessBlockSkipped | scripts/starred_fetcher.py:115-121 | removing a block without a name anchor changes nothing: such blocks are skipped |
| CuratedLists.HrefsBecomeFullNames | scripts/starred_fetcher.py:115-121 | a page of blocks whose anchors link "/owner/repo/" yields exactly the "owner/repo" names, in page order |
| CuratedLists.HrefBecomesFullName | scripts/starred_fetcher.py:120 | an href "/owner/repo", with or without a trailing '/', becomes "owner/repo" |
| CuratedLists.SingleAnchor | scripts/starred_fetcher.py:114-124 | a page with one anchored block gives exactly its stripped href |
| CuratedLists.AddTag | scripts/github_sync.py:109-110 | `repo_tags[r].add(slug)` on a defaultdict: exactly the listed names gain the slug and nothing else changes |
| CuratedLists.SyncCuratedTags | scripts/github_sync.py:101-112 | a name is excluded exactly when the "ignore" list is scraped and lists it. A name carries tag t exactly when t is a scraped slug other than "ignore" whose page lists the name. No entry is empty |
| CuratedLists.FetcherCuratedTags | scripts/starred_fetcher.py:130-147 | a name carries tag t exactly when t is one of `TAG_NAMES` and t's page lists the name, with no ignore handling; no entry is empty |
| CuratedLists.SyncTagsIgnoreNothingElse | scripts/github_sync.py:101-112 | the sync's tag map equals the fetcher's map over the slugs other than "ignore" |
| CountParsing.ExampleZero | scripts/starred_lists_fetcher.py:95-96 | "" and "0" parse to 0 |
| CountParsing.ParsePlainDigits | scripts/starred_lists_fetcher.py:105-106 | a non-empty digit string parses to its decimal value |
| CountParsing.ParseRendered | scripts/starred_lists_fetcher.py:105-106 | the parser inverts `str(n)` for every n >= 0 |
| CountParsing.ExamplePlain | scripts/starred_lists_fetcher.py:105-106 | "532" parses to 532 |
| CountParsing.ParseKilo | scripts/starred_lists_fetcher.py:98-101 | any text that lower-cases and strips to "w.fk" parses to floor((w·10^\|f\| + f) · 1000 / 10^\|f\|) |
| CountParsing.ParseWholeKilo | scripts/starred_lists_fetcher.py:98-101 | text that normalises to "wk" parses to w · 1000 |
| CountParsing.KiloBranch | scripts/starred_lists_fetcher.py:99-101 | a text ending in "k" whose prefix reads as a numeral parses to that numeral's truncated thousands |
| CountParsing.ThousandsValue | scripts/starred_lists_fetcher.py:101 | the exact `int(w.f * 1000)`: whole thousands plus the truncated thousandths equal the floor of the numeral times 1000 |
| CountParsing.ThousandthsValue | scripts/starred_lists_fetcher.py:101 | the first three fraction digits, zero padded, are floor(0.f · 1000) |
| CountParsing.KiloTextNormalised | scripts/starred_lists_fetcher.py:98 | lower-casing and stripping leave "w.fk" unchanged and turn "K" into "k" |
| CountParsing.ParseDecimal | scripts/starred_lists_fetcher.py:101 | an accepted numeral is digits, an optional point and digits, with at least one digit, and its whole and fraction parts put back together give the text. This is only part of the grammar of Python's `float()` (see Left out) |
| CountParsing.UnreadableReadsZero | scripts/starred_lists_fetcher.py:98-108 | a text ending in "k" whose prefix is no numeral reads 0, and so does a text without "k" that is not all digits: both `except ValueError` branches |
| CountParsing.ExampleTrailingLetter | scripts/starred_lists_fetcher.py:105-108 | "12x" reads 0 |
| CountParsing.ExampleTwoPoints | scripts/starred_lists_fetcher.py:99-103 | "1.2.3k" reads 0 |
| CountParsing.ParseNumberWithSuffix | scripts/starred_lists_fetcher.py:93-108 | a positive count needs a digit in the text. A text without one reads as 0 in the model; in Python it reads as 0 too, except for the float spellings named under Left out ("infk" raises) |
| CountParsing.ExampleKilo | scripts/starred_lists_fetcher.py:93-94 | "1.2k" parses to 1200 |
| Counting.Count | scripts/repo_recommender.py:77 | the count is 0 exactly when the element is absent, and never exceeds the length |
| Counting.CounterOf | scripts/repo_recommender.py:77 | `Counter(s)`: the keys are exactly the elements of s, in first-occurrence order, once each; each count is the number of occurrences |
| Counting.CounterEmpty | scripts/repo_recommender.py:264 | the Counter is empty exactly when nothing was counted |
| Counting.MostCommon | scripts/repo_recommender.py:146 | `most_common()` is a permutation of the items, sorted by count descending, one pair per key |
| Counting.MostCommonCounts | scripts/repo_recommender.py:146 | every listed pair is a key with its own count |
| Counting.MostCommonComplete | scripts/repo_recommender.py:146 | every key is listed |
| Counting.MostCommonDistinct | scripts/github_sync.py:162 | no key is listed twice |
| Counting.MostCommonTieOrder | scripts/repo_recommender.py:146 | keys with equal counts keep the order of their first occurrence |
| ListMerging.GroupAll | scripts/starred_lists_fetcher.py:118-127 | the dict's key order and its entries hold the same names |
| ListMerging.GroupAllInvariants | scripts/starred_lists_fetcher.py:118-142 | after the grouping loop: keys are the input's names in first-seen order; tags are the tags each name was seen with; each record is the one the update rule keeps |
| ListMerging.GroupAllFacts | scripts/starred_lists_fetcher.py:118-127 | the keys are the distinct names of the input in first-seen order, and each entry's record carries its own name |
| ListMerging.KeptNewName | scripts/starred_lists_fetcher.py:133-135 | a name seen for the first time keeps that row's record |
| ListMerging.KeptOldName | scripts/starred_lists_fetcher.py:136-142 | a later row replaces the kept record exactly when both `updated_at` are non-empty and the new one is strictly greater as a string |
| ListMerging.NewerIsKept | scripts/starred_lists_fetcher.py:139-142 | a newer row becomes the earliest row with the greatest timestamp of its name |
| ListMerging.OlderLeavesKept | scripts/starred_lists_fetcher.py:139-140 | a row that is not newer leaves the kept row in place |
| ListMerging.SortByStars | scripts/starred_lists_fetcher.py:159 | the rows are a permutation, sorted by stars descending |
| ListMerging.CombineReposWithTags | scripts/starred_lists_fetcher.py:110-161 | the output is the dict's rows, permuted and sorted by stars descending |
| ListMerging.CombineOneRowPerName | scripts/starred_lists_fetcher.py:118-154 | exactly one output row per distinct input name |
| ListMerging.CombinedRowOrigin | scripts/starred_lists_fetcher.py:146-154 | every output row is the row of one of the dict's entries |
| ListMerging.RowOfTags | scripts/starred_lists_fetcher.py:148-151 | a row's tags are its entry's tag set, sorted and duplicate-free, and `tags_count` is their number |
| ListMerging.GroupedRowFacts | scripts/starred_lists_fetcher.py:146-154 | a sorted row carries its entry's record and its entry's tags, sorted |
| ListMerging.CombineTags | scripts/starred_lists_fetcher.py:130-151 | a row's tags are exactly the tags its name appeared with, sorted, once each, and `tags_count` is their number |
| ListMerging.CombineKept | scripts/starred_lists_fetcher.py:133-142 | a row's record is the first row of its name when that row has no `updated_at`, and otherwise the earliest row of the name holding the greatest `updated_at` |
| ListMerging.RowsInFirstSeenOrder | scripts/starred_lists_fetcher.py:145-154 | before sorting, rows are in the order their names were first seen |
| ListMerging.CombineTieOrder | scripts/starred_lists_fetcher.py:159 | the stable sort keeps rows with equal stars in first-seen order |
| ListMerging.CombineEmpty | scripts/starred_lists_fetcher.py:183-187 | no listed repository gives no row |
| ListMerging.FetchAllLists | scripts/starred_lists_fetcher.py:163-187 | the lists' rows in `TAG_NAMES` order are combined; the empty-input branch returns the same as combining nothing |
| ListMerging.Tagged | scripts/starred_lists_fetcher.py:75-84 | every record scraped from a list page keeps its data and carries that list's name as its tag |
| ListMerging.AllListed | scripts/starred_lists_fetcher.py:169-175 | every gathered record's tag is one of the names asked for |
| ListMerging.FetchAllListsTags | scripts/starred_lists_fetcher.py:163-187 | every combined row's tags are names from `TAG_NAMES` |
| StarredRows.CuratedListing | scripts/github_sync.py:137 | `list(set)`: exactly the set's tags, with no duplicates when the listing order has none |
| StarredRows.ListingComplete | scripts/github_sync.py:137 | a listing along a duplicate-free slug list that covers the set lists the whole set, once each |
| StarredRows.SyncRowWith | scripts/github_sync.py:134-148 | the row exists exactly when the name unpacks. It has the release label of (owner, repo) and sorted curated tags. `all_tags` is the sorted concatenation of topics and curated tags, duplicates kept. `is_curated` holds exactly when there are curated tags. A missing `language` reads "Unknown"; a JSON null one stays None. `stars` and `html_url` are copied unchanged |
| StarredRows.CuratedOrderIrrelevant | scripts/github_sync.py:137-146 | the row does not depend on the order the tag set is listed in |
| StarredRows.NotIgnored | scripts/github_sync.py:131-133 | a repository is kept exactly when its name is not excluded |
| StarredRows.SyncRowListsTags | scripts/github_sync.py:137-147 | `curated_tags` lists the repository's tag set once each; `is_curated` holds exactly when the set is non-empty |
| StarredRows.SyncRowCurated | scripts/github_sync.py:101-147 | with the sync's own lists, the curated tags never include "ignore" |
| StarredRows.MapRows | scripts/github_sync.py:130-149 | one row per repository in order; the first failing row aborts the whole loop with its error |
| StarredRows.ProcessStarred | scripts/github_sync.py:128-150 | an unpack failure on a kept repository aborts; otherwise one row per repository that is not excluded, in input order |
| StarredRows.ProcessStarredNames | scripts/github_sync.py:130-149 | a name has a row exactly when it is starred and not excluded |
| StarredRows.FetcherRowWith | scripts/starred_fetcher.py:155-190 | as `SyncRowWith`, plus: the `topics` cell is the ", "-join of the topics, and `tags_count` is topics plus curated tags, duplicates included. `stars`, `forks`, `html_url`, `created_at` and `updated_at` are copied unchanged. Each `.get` field (`description`, `language`, `pushed_at`, `open_issues_count`, `archived`, `fork`) takes its default only when the key is missing; a JSON null stays None |
| StarredRows.ProcessFetcher | scripts/starred_fetcher.py:149-195 | no repository is skipped: one row per repository, in order, unless an unpack aborts |
| StarredRows.FetcherTagsCount | scripts/starred_fetcher.py:165-182 | with the fetcher's tag map, `tags_count` is the number of topics plus the size of the tag set, and `is_curated` holds exactly when that set is non-empty |
| StarredRows.ReposRowOf | scripts/starred_repos_fetcher.py:100-126 | the row exists exactly when the name unpacks. It has the release label and the ", "-joined topics. `stars`, `forks`, `html_url`, `created_at` and `updated_at` are copied unchanged. Each `.get` field (`description`, `language`, `pushed_at`, `open_issues_count`, `archived`, `fork`) takes its default only when the key is missing; a JSON null, such as the `language` of a repository without code, stays None |
| StarredRows.ProcessRepos | scripts/starred_repos_fetcher.py:95-131 | one row per repository, in order, unless an unpack aborts |
| Topics.PieceTopics | scripts/repo_recommender.py:73 | a topic is kept exactly when some piece strips to something non-empty and it is that piece stripped and lower-cased; each is trimmed, non-empty and lower-case, at most one per piece |
| Topics.PieceTopicsConcat | scripts/repo_recommender.py:73 | the topics of two runs of pieces are the topics of each, in order |
| Topics.StripEmptyIffBlank | scripts/repo_recommender.py:73 | a piece is dropped exactly when it is all whitespace |
| Topics.CellTopics | scripts/repo_recommender.py:72-73 | a cell's topics are exactly its comma-separated pieces that strip to something non-empty, stripped and lower-cased: at most one per piece, each trimmed, non-empty and lower-case. A cell that strips to nothing yields none, so the `topics_str.strip()` guard changes nothing |
| Topics.TopicsRoundTrip | scripts/repo_recommender.py:73 | clean topics written with ", ".join (as in scripts/starred_fetcher.py line 178) read back as the same list in the same order |
| TopicSearch.Take | scripts/repo_recommender.py:123-124 | `s[:n]` is a prefix of length min(n, \|s\|) |
| TopicSearch.SearchResults | scripts/repo_recommender.py:109-125 | never more than `max_results` results |
| TopicSearch.SearchByTopic | scripts/repo_recommender.py:87-135 | the results are the pages before the first non-200, empty or raising page, truncated to `max_results`. At most `max_results // 100 + 1` pages are requested, consecutively from 1. Paging stops early only at an unusable page or once enough results are in hand |
| TopicSearch.FullPagesFillResults | scripts/repo_recommender.py:93-125 | when every page is full, exactly `max_results` results come back |
| TopicSearch.FailedFirstPage | scripts/repo_recommender.py:109-132 | a first page that fails or raises leaves the search empty |
| Recommender.RowTopics | scripts/repo_recommender.py:71-74 | a NaN cell contributes nothing; otherwise the cell's split, stripped and lowered topics |
| Recommender.CountAllTopics | scripts/repo_recommender.py:74-77 | the count of a topic over all rows is the sum of its occurrences row by row |
| Recommender.ExtractTopicFrequencies | scripts/repo_recommender.py:58-84 | the keys are exactly the topics that occur in some row, each counted once per occurrence, listed in the order the topics first occur (`Counter`'s insertion order, which fixes the tie order of `most_common()`); the starred names are exactly the non-empty `name` cells |
| Recommender.TopicHitsCounts | scripts/repo_recommender.py:146-151 | every search hit carries its topic's own frequency |
| Recommender.GetRecommendations | scripts/repo_recommender.py:138-175 | the accumulator dict stays well formed |
| Recommender.EntryStep | scripts/repo_recommender.py:151-171 | one inner-loop pass keeps each id's accumulator right |
| Recommender.Accumulate | scripts/repo_recommender.py:146-171 | after all hits, an id has an accumulator exactly when some unstarred hit has that id. The accumulator holds the first such hit's record, the topics of all such hits in order, and the sum of their frequencies |
| Recommender.Recommendations | scripts/repo_recommender.py:155-171 | as `Accumulate`; also no accumulated record is starred, and each sits under its own id |
| Recommender.TotalIsScore | scripts/repo_recommender.py:170-171 | `total_frequency` is the sum of the counts of the matched topics |
| Recommender.TotalIsCounterScore | scripts/repo_recommender.py:146-171 | with topics in `most_common()` order, the total is the sum of the Counter's counts of the matched topics |
| Recommender.TwoTopicsExample | scripts/repo_recommender.py:162-171 | topics of frequency 5 and 3 that find the same repository give one accumulator with matches ["a", "b"] and score 8 |
| Recommender.FormatRow | scripts/repo_recommender.py:189-200 | `description` and `language` take their defaults only when the key is missing, and a JSON null stays None. `stars`, `forks` and `html_url` are the repository's, and the `topics` cell is the ", "-join of its topics (empty when the key is missing). `num_topic_matches` is the number of matches. The `matched_topics` cell of clean topics reads back as the matches |
| Recommender.FormattedRows | scripts/repo_recommender.py:184-200 | one formatted row per accumulator, in dict order |
| Recommender.RanksBeforeIsStrictWeakOrder | scripts/repo_recommender.py:205 | the (score, stars) descending order is a strict weak order |
| Recommender.FormatRecommendations | scripts/repo_recommender.py:202-205 | the rows are a permutation of the formatted rows, sorted by score and then stars, both descending |
| Recommender.FormatOneRowPerEntry | scripts/repo_recommender.py:184-205 | each ranked row is some accumulator's row, and every accumulator has its row |
| Recommender.RankStage | scripts/repo_recommender.py:269-276 | the stage stops at "No recommendations found." exactly when every search result of the Counter's topics, in `most_common()` order, is a starred repository; otherwise the rows are non-empty and sorted by score, then stars |
| Recommender.NoEntryIffAllStarred | scripts/repo_recommender.py:155-159 | the accumulator dict is empty exactly when every hit is starred |
| Recommender.RankedRows | scripts/repo_recommender.py:146-172 | when the stage ranks, every unstarred search result has its repository's row among the ranked rows, and every ranked row is the row opened by the first unstarred hit for its id: that hit's record, the topics of all hits for the id in order and their summed frequency |
| Recommender.Run | scripts/repo_recommender.py:249-286 | the run stops at an empty sheet exactly when there are no rows, at "no topics" exactly when the rows hold no topic, and at "No recommendations found." exactly when the rows hold topics and every search result is starred; a ranking is non-empty and sorted by score, then stars |
| Recommender.RunRankedRows | scripts/repo_recommender.py:268-276 | when `main` ranks, every unstarred search result has its repository's row among the ranked rows, and every ranked row is the row opened by the first unstarred hit for its id |
| Recommender.RunExcludesStarred | scripts/repo_recommender.py:155-159 | no ranked row names a starred repository |
| SyncRecommendations.ReplyItems | scripts/github_sync.py:172-174 | a 200 reply gives its items; a raised or non-200 reply is skipped |
| SyncRecommendations.RecOf | scripts/github_sync.py:177-182 | the row keeps the result's name, stars and url. A missing `language` reads "Unknown", a JSON null one stays None, and a present one is kept |
| SyncRecommendations.Collect | scripts/github_sync.py:161-182 | the dict stays well formed, with at most one entry per result |
| SyncRecommendations.CollectLastWins | scripts/github_sync.py:174-182 | an id has an entry exactly when some accepted result has it, and the entry is the row of the last such result |
| SyncRecommendations.RankByStars | scripts/github_sync.py:186 | the rows are a permutation of the dict's values, sorted by stars descending |
| SyncRecommendations.GenerateAsWritten | scripts/github_sync.py:152-186 | the function as written. No rows raises `KeyError: 'name'`. Otherwise a result is sorted by stars |
| SyncRecommendations.GenerateRecommendations | scripts/github_sync.py:152-186 | the corrected function. It fails exactly when there are no rows; otherwise its result is sorted by stars |
| SyncRecommendations.AsWrittenDiffers | scripts/github_sync.py:157-186 | the two versions differ exactly when topics exist and no result is accepted; when the original succeeds they agree |
| SyncRecommendations.NoCandidatesExample | scripts/github_sync.py:186 | one starred row tagged "go" and an empty search: the original raises `KeyError: 'stars'`; the corrected version returns no rows |
| SyncRecommendations.NoCandidatesDiffer | scripts/github_sync.py:172-186 | topics present and every reply empty: the original raises; the corrected version returns no rows |
| SyncRecommendations.NoRepliesNoCandidates | scripts/github_sync.py:172-174 | when every reply is empty or skipped there are no candidates |
| SyncRecommendations.NoTopicsNoRows | scripts/github_sync.py:157-159 | rows without any topic give an empty result |
| SyncRecommendations.RecommendedRows | scripts/github_sync.py:174-186 | no row names a starred or excluded repository. Each row is the row of the last accepted result for its id. Every accepted id contributes that row |
| SyncRecommendations.GenerateIsRanked | scripts/github_sync.py:158-186 | with topics present, the result is the collected dict ranked by stars |
| SyncRecommendations.CandidatesBound | scripts/github_sync.py:167-174 | each topic contributes at most `min(max_per_topic, 100)` results |
| SyncRecommendations.RowsBound | scripts/github_sync.py:162-182 | at most `min(max_per_topic, 100)` rows per distinct topic |
| SyncRecommendations.SheetTopicsAreTags | scripts/github_sync.py:155-156 | clean tags written into `all_tags` are read back as the same topics |
| Text.StripBy | scripts/github_sync.py:96 | `strip(chars)`: the result neither starts nor ends with a stripped character |
| Text.Lower | scripts/repo_recommender.py:73 | `lower()` keeps the length and lowers each character |
| Text.Split | scripts/repo_recommender.py:73 | `split(',')` gives at least one piece and no piece holds the separator |
| Text.SplitJoin | scripts/starred_fetcher.py:178 | splitting a join restores the pieces when no piece holds the separator |
| Text.StrLessIsStrictTotalOrder | scripts/starred_lists_fetcher.py:140 | Python's string `<` is a strict total order |
| Text.SortStrings | scripts/github_sync.py:145-146 | `sorted(strings)` is a sorted permutation |
| Text.SortStringsOrderIndependent | scripts/github_sync.py:137-146 | `sorted` of two orderings of the same strings is the same list |
| Text.IntToDecimal | scripts/github_sync.py:121 | `str(status)` reads back as the status, with a leading '-' when negative |
| Sorting.SortKeepsTieOrder | scripts/starred_lists_fetcher.py:159 | the sort is stable: tied elements keep their input order |
| Sorting.SortedUnique | scripts/github_sync.py:145-146 | under a strict total order, equal contents have a single sorted listing |

## Left out

- HTTP requests, headers and tokens, `time.sleep`, `tqdm` and all console output. Every response is an input value.
- Google Sheets, credential loading, and DuckDB/MotherDuck uploads. They are external sinks.
- `fetched_at` timestamps from `datetime.now()`, and the `main` of the sync and fetcher scripts. Those are I/O sequencing around the modelled functions.
- `scripts/test_motherduck.py`, `run_fetch.py` and `scripts/starred_lists_scrapped.py`. They are a connection test, a loader and a duplicate scraper.
- BeautifulSoup selector semantics. Only the skip-if-no-anchor rule and the href `strip('/')` are modelled. The full-record `scrape_github_list` of the lists fetcher is an input function giving each list page's records; the model attaches the list's name as their tag.
- The sync row has no `forks` or `created_at` column, as in scripts/github_sync.py:134-148; the row contracts state every copied field.
- A JSON null `topics` in a search result, or a null `names` from the topics endpoint. In Python the first makes `', '.join` raise `TypeError` and the second makes `topics + curated_tags` raise. `SearchHit.topics` and `TopicsResponse.names` only tell a list from a missing key; GitHub sends lists there.
- An exception raised by a request or its JSON decoding inside `get_starred_repos`, `get_last_release_date` or `get_repo_topics`. There is no `try` around scripts/github_sync.py:71, 116 and 125, nor around the copies in the two fetchers, so it aborts the run. Responses are total functions here, so the model has no such failure.
- A `KeyError` on a missing required field inside a repository record. Records are assumed to have their required fields.
- CountParsing.ParseNumberWithSuffix / CountParsing.ParseDecimal: the prefix before "k" is read only as `digits[.digits]` or `.digits`, with whitespace around it. Python's `float()` also accepts a sign, an exponent, underscores between digits, and "inf", "infinity" and "nan" in any case. So "-1k" is -1000 and "1e3k" is 1000000 in Python, but 0 in the model. "infk" makes `int()` raise `OverflowError`, which `except ValueError` does not catch: the exception escapes to `scrape_github_list`, whose handler returns [] for the whole list (scripts/starred_lists_fetcher.py:89-91). "nank" raises `ValueError` and reads 0 in both.
- CountParsing.ParseNumberWithSuffix: the "k" branch computes `int(float(prefix) * 1000)` exactly in decimal. Python's binary float product can land just below an integer and so truncate one lower. Python's `int()` also accepts signs, underscores and surrounding whitespace in the plain branch; the model reads digits only and gives 0 for anything else.
- Text.Lower and Text.Strip: only ASCII letters are lowered. Only the ASCII characters `str.strip()` removes are stripped: space, tab, line feed, vertical tab, form feed, carriage return and 0x1C-0x1F. Python also lowers non-ASCII letters and strips Unicode whitespace such as U+0085 and U+00A0.
- StarredRows.CuratedListing: `list(set)` order is arbitrary in Python. It is modelled as the set listed along the slug order, and `CuratedOrderIrrelevant` proves the rows do not depend on that order.
- Recommender.FormatRecommendations and SyncRecommendations.RankByStars: only "sorted permutation" is stated. The order pandas gives to fully tied rows is not part of the contract.
- Recommender.ExtractTopicFrequencies: a NaN `name` or `topics` cell is modelled as `None`; pandas' other missing-value forms are not distinguished.
- Recommender.Run: the upload is left out. The run ends with the ranked rows.

## Findings

| source | as written | input that shows it | evidently intended | confidence | as-written member | corrected member |
|---|---|---|---|---|---|---|
| scripts/github_sync.py:186 | when topics exist but every search result is starred, ignored or missing, `pd.DataFrame([]).sort_values('stars')` raises `KeyError: 'stars'`. `main` catches it and exits with status 1 after the starred upload | one starred row whose `all_tags` is "go", with every search answering 200 and no items | an empty result, which `main` already handles with "No recommendations generated" (lines 211-215) | not executed | SyncRecommendations.GenerateAsWritten | SyncRecommendations.GenerateRecommendations |

`NoCandidatesExample` and `AsWrittenDiffers` prove the discrepancy for the
as-written member. The corrected member never fails once there are rows
(`GenerateRecommendations`), and returns no rows in this case
(`NoCandidatesDiffer`).

Both versions keep the script's behaviour when there are no rows at all,
for example when every starred repository is excluded. `starred_df['name']`
then raises `KeyError: 'name'`.
