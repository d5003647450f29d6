# Repository-mention and repository-statistics scripts, modelled in Dafny

These Dafny modules model the sequential logic of the scripts behind a survey
of open-source software mentioned in astronomy papers. There are four pieces.

- **Mention extraction** (`arxiv2github.py`). `search_in_string` scans the
  plain text of a paper for every occurrence of a marker (`github.com/`).
  Each capture runs from the occurrence to the first space or period among
  the 100 characters after the marker, or to the end of the text. The cursor
  then moves on by the marker's length. The captures are made unique, sorted,
  and the empty string is dropped.
- **Repository statistics** (`github_api_stats.py`).
  - `get_easy_stats` flattens the GraphQL summary of a repository, which may
    be null and has nullable parts, into a statistics dictionary.
  - `build_authors_query` builds the paged authors query, with an
    `after:"<cursor>"` clause only when there is a cursor.
  - `get_authors` follows `endCursor`/`hasNextPage` from page to page and
    collects the logins of non-null authors. It gives up with `[]` when a page
    reports the repository missing.
  - `get_repo_stats` adds the number of distinct authors of issues and of
    pull requests.
- **arXiv identifier selection** (`ads2arxiv.py`). `get_arxiv_ids` keeps every
  identifier containing `arXiv:`, paper after paper. It returns them with a
  parallel list of the owning paper's citation count.
- **Paper tagging** (`query_ads.py`). `query_ads` adds an `arxiv_id` entry to
  every paper's record: the paper's last identifier containing `arXiv:`, or
  `None`.

## How the outside world is modelled

Nothing is fetched. Every source of input becomes a parameter:

- **The text of a paper** is a `string`.
- **An answer of the GitHub GraphQL endpoint** is a `Reply(status, body)`
  whose body is already parsed into typed records.
- **A request** is a `Query` value. `Render` gives its text.
- **The pages of the authors query** are a sequence of replies. The i-th
  reply answers the i-th request.
- **The result of an ADS search** is a sequence of `Paper` records.

An exception raised by `query_github` becomes the `Failure` of a `Result`.
Python's string operations are modelled in module `Strings` with Python's
semantics: `find`, slicing with negative and clipped bounds, `in`, and
`split`. `find` is modelled for a non-empty needle and non-negative bounds,
and `split` for a one-character separator; every call in the scripts is of
that kind. `np.unique` on strings is modelled in module `Unique` as sorting by
code point with duplicates removed.

Four behaviours of the mention extractor are worth spelling out. The
model states each of them:

- **Text without the marker.** Such text can still yield its last character
  (arxiv2github.py:50-58). The last, unsuccessful search has `hit == -1`, and it
  still appends `string[-1:hit_end]`. That slice is the text's last character
  when the 100 characters starting at index `len(marker) - 1` hold no space or
  period. `NoMarkerNoHits` and `NoMarkerExample` state this: `"v1"` yields
  `["1"]`.
- **Terminators.** Only `' '` and `'.'` end a capture (arxiv2github.py:52).
  Tabs and newlines do not.
- **Order.** The result is sorted, as `np.unique` returns it
  (arxiv2github.py:60).
- **Overlap.** Captures can overlap (arxiv2github.py:59). The cursor moves
  past the marker, not past the capture, so every occurrence of
  `github.com/` is captured, even one inside an earlier capture
  (`EveryGithubMentionCaptured`). `OverlapExample` shows it:
  `github.com/a/github.com/b` yields `github.com/a/github` and
  `github.com/b`.

## Model

| member | source | states |
|---|---|---|
| Strings.Find | arxiv2github.py:51 | `str.find`: -1, or the lowest index at or after `start` where the needle occurs and ends within `end`; -1 exactly when there is no such index |
| Strings.Contains | ads2arxiv.py:18 | Python's `sub in s`: the needle occurs at some index of the string |
| Strings.SliceIndex | arxiv2github.py:58 | how a slice bound resolves: a negative one counts from the end, and any bound is clipped into `0..len` |
| Strings.Slice | arxiv2github.py:58 | Python's `s[i:j]`: the characters between the resolved bounds, or `''` when the range is empty |
| Strings.Split | github_api_stats.py:226 | `str.split('/')`: at least one piece, and no piece holds the separator |
| Strings.SplitJoin | github_api_stats.py:226 | joining the pieces of a split with the separator gives back the string |
| Strings.SplitAtFirstSeparator | github_api_stats.py:226 | the first separator ends the first piece; the rest is split on its own |
| Strings.SplitNoSeparator | github_api_stats.py:226 | a string without the separator splits into itself alone |
| Unique.Insert | arxiv2github.py:60 | inserting into a strictly sorted sequence keeps it strictly sorted and adds exactly the new element |
| Unique.Less | arxiv2github.py:60 | the order `np.unique` sorts strings by: code point by code point, with a proper prefix first |
| Unique.SortedUnique | arxiv2github.py:60 | `np.unique`: strictly ascending, and contains exactly the input's elements |
| Unique.WithoutEmpty | arxiv2github.py:61 | `matches[matches != '']`: still strictly ascending, and holds exactly the non-empty elements |
| Unique.UniqueNonEmpty | arxiv2github.py:60-61 | the post-processing: strictly ascending, without `''`, and holds exactly the non-empty inputs |
| Unique.StrictlySortedDetermined | arxiv2github.py:60-61 | two strictly sorted sequences with the same elements are equal, so the output is the one ascending listing of the distinct non-empty captures |
| Unique.StrictlySortedCardinality | github_api_stats.py:219 | a strictly sorted sequence has as many distinct elements as it has elements |
| Unique.LessTransitive | arxiv2github.py:60 | the string order `np.unique` sorts by is transitive |
| Unique.LessTotal | arxiv2github.py:60 | any two different strings are ordered one way or the other |
| Unique.LessIrreflexive | arxiv2github.py:60 | no string is smaller than itself |
| AdsPapers.IsArxiv | ads2arxiv.py:18 | an identifier is an arXiv one when `'arXiv:'` occurs in it |
| Arxiv2Github.HitEnd | arxiv2github.py:52-57 | `hit_end` lies within the text and not before the end of the marker |
| Arxiv2Github.IsTerminator | arxiv2github.py:52 | the characters that end a capture: `' '` and `'.'` |
| Arxiv2Github.HitEndSpec | arxiv2github.py:52-57 | `hit_end` is a space or period fewer than 100 characters past the marker, or the end of the text; no space or period lies in the window before it |
| Arxiv2Github.TerminatorSearch | arxiv2github.py:52-53 | each of the two `find` calls returns the first space (period) of the window, or -1 when the window holds none |
| Arxiv2Github.HitEndAt | arxiv2github.py:52-57 | a space or period in the window with none before it is `hit_end` |
| Arxiv2Github.HitEndNone | arxiv2github.py:54-55 | with no space or period in the window, `hit_end` is the length of the text |
| Arxiv2Github.FindIs | arxiv2github.py:51 | `find` answers with an occurrence in its range that has no occurrence before it |
| Arxiv2Github.Capture | arxiv2github.py:58 | `string[hit:hit_end]`, for an occurrence or for the final -1 |
| Arxiv2Github.Captures | arxiv2github.py:58 | `matches.append(string[hit:hit_end])` for each hit, in order |
| Arxiv2Github.Hits | arxiv2github.py:50-59 | the occurrences the loop finds: each search starts at the previous occurrence plus the marker length, until `find` gives -1 |
| Arxiv2Github.RawMatches | arxiv2github.py:49-58 | the list the loop appends to: one capture per occurrence in order, then the capture of the final -1 |
| Arxiv2Github.HitsOccur | arxiv2github.py:50-59 | every occurrence the loop finds is a real occurrence, and each is at least one marker length after the one before, so the cursor strictly increases |
| Arxiv2Github.SearchInString | arxiv2github.py:43-62 | the loop appends one capture per occurrence found and one for the final -1; the result is these made unique and sorted with `''` dropped, and it contains exactly the non-empty captures |
| Arxiv2Github.SearchStep | arxiv2github.py:50-59 | one round of the loop keeps its invariant and strictly advances the cursor |
| Arxiv2Github.Arxiv2Github | arxiv2github.py:64-66 | the mentions of `github.com/`: each starts with the marker, except possibly the text's last character |
| Arxiv2Github.CaptureAtHit | arxiv2github.py:51-58 | a capture at an occurrence is a piece of the text that starts with the marker. It stops at a space or period fewer than 100 characters past the marker with none in between, or it runs to the end of the text |
| Arxiv2Github.CaptureIsSlice | arxiv2github.py:58 | a capture at an occurrence is the text from the occurrence up to `hit_end` |
| Arxiv2Github.FinalCapture | arxiv2github.py:50-58 | the capture of the final -1 is `''` or the text's last character; it is the last character exactly when the window holds no space or period |
| Arxiv2Github.RawMatchShape | arxiv2github.py:50-58 | everything appended starts with the marker, or is `''`, or is the text's last character |
| Arxiv2Github.NoMarkerNoHits | arxiv2github.py:50-61 | text without the marker yields only the final capture, which is nothing or the text's last character |
| Arxiv2Github.NoMarkerExample | arxiv2github.py:50-61 | `"v1"` contains no mention yet yields `["1"]` |
| Arxiv2Github.HitsCover | arxiv2github.py:51-59 | every occurrence from the cursor on is found, or lies inside the marker of one that was found |
| Arxiv2Github.GithubMarkerDisjoint | arxiv2github.py:66 | two occurrences of `github.com/` never overlap |
| Arxiv2Github.EveryGithubMentionCaptured | arxiv2github.py:51-59 | every occurrence of `github.com/` is found and its capture is appended, even inside an earlier capture, so captures may overlap |
| Arxiv2Github.OverlapHits | arxiv2github.py:50-59 | in `github.com/a/github.com/b` the loop finds the marker at 0 and at 13 |
| Arxiv2Github.OverlapFirstTerminator | arxiv2github.py:52-57 | in that text the first terminator after index 10 or 11 is the period at 19 |
| Arxiv2Github.OverlapFirstCapture | arxiv2github.py:52-58 | the capture at 0 stops at that period: `github.com/a/github` |
| Arxiv2Github.OverlapSecondCapture | arxiv2github.py:54-58 | the capture at 13 runs to the end of the text: `github.com/b` |
| Arxiv2Github.OverlapFinalCapture | arxiv2github.py:50-58 | the capture of the final -1 is `string[-1:19]`, which is empty |
| Arxiv2Github.OverlapRawMatches | arxiv2github.py:49-59 | the loop appends exactly those three captures |
| Arxiv2Github.LessAt | arxiv2github.py:60 | strings equal up to index `k` are ordered by their characters at `k` |
| Arxiv2Github.OverlapOrder | arxiv2github.py:60 | `github.com/a/github` sorts before `github.com/b` |
| Arxiv2Github.TwoMentions | arxiv2github.py:60-61 | two ordered non-empty captures plus `''` give exactly those two, in order |
| Arxiv2Github.OverlapExample | arxiv2github.py:43-62 | `github.com/a/github.com/b` yields the overlapping mentions `github.com/a/github` and `github.com/b` |
| GithubApiStats.QueryGithub | github_api_stats.py:35-55 | the parsed body exactly when the status is 200; otherwise the failure names the status and the query |
| GithubApiStats.Column | github_api_stats.py:115-134 | the dictionary key each statistic is stored under, `n_<contribution>_unique_authors` included |
| GithubApiStats.SummaryField | github_api_stats.py:115-134 | the value `get_easy_stats` assigns to each key of an existing repository |
| GithubApiStats.EasyStatsQuery | github_api_stats.py:84-111 | the summary query with the owner and name filled in |
| GithubApiStats.Render | github_api_stats.py:84-172 | the text sent for a request: the summary query, or `build_authors_query` with the page's parameters |
| GithubApiStats.SummaryStats | github_api_stats.py:113-135 | owner and name always set. A null repository gives only those two keys. Otherwise it gives the eleven keys: `createdAt` and `pushedAt` copied (`pushedAt` null iff null in the reply); `language` null iff `primaryLanguage` is null, else its name; `license` the `spdxId` and `pseudoLicense` the flag of `licenseInfo`, both null when it is null; the four counts equal the `totalCount` fields |
| GithubApiStats.GetEasyStats | github_api_stats.py:73-135 | succeeds exactly on status 200 with the flattened summary; otherwise fails naming the status and the summary query |
| GithubApiStats.EasyStatsRoundTrip | github_api_stats.py:114-134 | flattening loses nothing: the repository summary (or its absence) is recovered from the dictionary |
| GithubApiStats.AfterClause | github_api_stats.py:152-153 | `, after:"<cursor>"` with a cursor, nothing without one |
| GithubApiStats.DecimalString | github_api_stats.py:150-151 | `%s` applied to the page size `first`: its decimal digits |
| GithubApiStats.BuildAuthorsQuery | github_api_stats.py:138-172 | the query head up to the page size, the optional `after` clause, then the fixed tail |
| GithubApiStats.AfterClauseInserted | github_api_stats.py:147-154 | with a cursor the query is the cursor-less query with `, after:"<cursor>"` inserted after the page size |
| GithubApiStats.AfterClauseInjective | github_api_stats.py:152-153 | the `after` clause is empty exactly without a cursor and determines the cursor |
| GithubApiStats.BuildAuthorsQueryInjective | github_api_stats.py:138-172 | different cursors give different queries |
| GithubApiStats.Logins | github_api_stats.py:197-199 | no more logins than edges |
| GithubApiStats.LoginsOf | github_api_stats.py:197-199 | a login is listed exactly when some edge's author has it |
| GithubApiStats.LoginsAppend | github_api_stats.py:197-200 | logins are taken edge by edge in order, whatever the page boundaries |
| GithubApiStats.LoginsCount | github_api_stats.py:197-199 | every edge gives a login exactly when no author is null: null authors are skipped |
| GithubApiStats.StopAt | github_api_stats.py:188-202 | the first reply that ends paging: every earlier one was a 200 with a repository and a next page |
| GithubApiStats.Continues | github_api_stats.py:188-202 | the loop sends another request after a reply exactly when it has status 200, a repository and `hasNextPage` |
| GithubApiStats.EndCursor | github_api_stats.py:201 | the `endCursor` of a reply's page |
| GithubApiStats.CursorBefore | github_api_stats.py:187-201 | `after=endCursor`: no cursor for the first request, the previous page's `endCursor` after that |
| GithubApiStats.PageLogins | github_api_stats.py:197-199 | `extra_authors` of one page: the logins of its non-null authors |
| GithubApiStats.StopIsFirst | github_api_stats.py:188-202 | a reply that ends paging after replies that all continue is where paging stops |
| GithubApiStats.CollectedLogins | github_api_stats.py:184-200 | the logins of the first `n` pages, page after page, as `authors.extend` accumulates them |
| GithubApiStats.Authors | github_api_stats.py:175-205 | what `get_authors` returns given its replies: the first failed query's exception, `[]` at a page without repository, or the logins of all pages up to the first without a next page |
| GithubApiStats.GetAuthors | github_api_stats.py:175-205 | returns the first failure, `[]` on a missing repository, or the in-order logins of all pages up to the first without a next page. Sends one request per page read: the first without a cursor, each later one with the previous page's `endCursor` |
| GithubApiStats.CollectedLoginsPrefix | github_api_stats.py:187-202 | the logins collected over `n` pages depend on those pages only |
| GithubApiStats.AuthorsIgnoreLaterReplies | github_api_stats.py:187-202 | replies after the page that ends paging are never read |
| GithubApiStats.CollectedLoginsOfEdgesRead | github_api_stats.py:197-200 | collecting page by page gives the logins of all edges read, in order |
| GithubApiStats.AuthorsAreEdgeLogins | github_api_stats.py:184-205 | for a repository that exists, a login is returned exactly when some edge read has that author |
| GithubApiStats.MissingRepositoryNoAuthors | github_api_stats.py:194-196 | a page reporting no repository makes the answer `[]`, discarding earlier pages |
| GithubApiStats.UniqueCount | github_api_stats.py:219 | `len(np.unique(authors))`: the length of the sorted, de-duplicated logins |
| GithubApiStats.UniqueCountDistinct | github_api_stats.py:219 | `len(np.unique(authors))` is the number of distinct logins, at most the number of logins, and 0 exactly when there are none |
| GithubApiStats.WithUniqueAuthors | github_api_stats.py:217-219 | the `for contribution` loop: after `n` contributions, the first failure or the statistics with their distinct-author counts added |
| GithubApiStats.GetRepoStats | github_api_stats.py:208-220 | the summary's failure, else the issues' failure, else the pull requests' failure, else the summary plus the distinct-author counts of issues and of pull requests |
| GithubApiStats.RepoFromUrl | github_api_stats.py:226-229 | owner and name exist exactly when the URL splits into at least three pieces |
| GithubApiStats.RepoFromUrlRoundTrip | github_api_stats.py:226-229 | `host/owner/name[/...]` yields that owner and name |
| Ads2Arxiv.ArxivIds | ads2arxiv.py:17-19 | no more identifiers kept than given |
| Ads2Arxiv.ArxivIdsMembers | ads2arxiv.py:17-19 | an identifier is kept exactly when it is among the paper's and contains `arXiv:` |
| Ads2Arxiv.ArxivIdsEmpty | ads2arxiv.py:17-20 | a paper contributes nothing exactly when none of its identifiers contains `arXiv:` |
| Ads2Arxiv.ArxivIdsAppend | ads2arxiv.py:17-19 | identifiers keep their order within a paper |
| Ads2Arxiv.SelectedIds | ads2arxiv.py:16-19 | the identifiers `get_arxiv_ids` returns: paper after paper, each paper's arXiv identifiers in order |
| Ads2Arxiv.SelectedCitations | ads2arxiv.py:16-20 | the citation counts it returns: each paper's count, once per arXiv identifier of that paper |
| Ads2Arxiv.GetArxivIds | ads2arxiv.py:3-21 | the nested loops return the selected identifiers and the parallel citation counts |
| Ads2Arxiv.SelectedAppend | ads2arxiv.py:16-20 | output order follows paper order: selection distributes over concatenation of the papers |
| Ads2Arxiv.OnePaper | ads2arxiv.py:17-20 | a paper with k matching identifiers contributes those k, each with the paper's citation count |
| Ads2Arxiv.SelectedParallel | ads2arxiv.py:16-20 | both lists have the same length, every identifier contains `arXiv:`, and the i-th count is the count of a paper owning the i-th identifier |
| QueryAds.ArxivValue | query_ads.py:23-26 | the entry is `None` exactly when no identifier contains `arXiv:` |
| QueryAds.LastArxivId | query_ads.py:23-26 | the last identifier containing `arXiv:`, since each match overwrites the entry, or none |
| QueryAds.Tagged | query_ads.py:22-26 | the paper's record plus `arxiv_id`; every other field unchanged |
| QueryAds.QueryAds | query_ads.py:10-28 | one record per paper, in order, each the paper's record with `arxiv_id` set |
| QueryAds.LastArxivIdSpec | query_ads.py:23-26 | `arxiv_id` is `None` exactly when no identifier contains `arXiv:`, otherwise an identifier containing it with no later one that does |
| QueryAds.LastOfArxivIds | query_ads.py:24-26 | `arxiv_id` is the last of the identifiers `get_arxiv_ids` selects for the same paper |

## Left out

- HTTP and credentials: the POST to the GraphQL endpoint and reading the token file (github_api_stats.py:31-50). A reply is an input.
- `get_rate_limit` (github_api_stats.py:58-70): a fixed query passed to `query_github`, with no logic of its own.
- github2stats.py: a query template plus the same network call, with no logic to model.
- PDF download and text extraction, `_pdfparser` and `arxiv2string` (arxiv2github.py:14-40): file, network and pdfminer I/O. The text is an input.
- The `ads.SearchQuery` calls (ads2arxiv.py:13-15, query_ads.py:20): the search result is an input sequence of papers.
- The print scripts, the CSV files, pandas, tqdm and the warnings printed for a missing repository: console and file I/O.
- The commented-out `totalCount` assertion (github_api_stats.py:204): the code does not enforce it, so it is not stated.
- Malformed replies (a missing key, a wrong type) raise KeyError/TypeError in Python. The model's typed records cannot express them. Fields the script requests but never reads, such as `shortDescriptionHTML` and the node `id` of an edge, are carried or dropped without effect.
- GithubApiStats.GetAuthors: requires that some reply ends the paging; with an endless run of next pages the source never terminates.
- GithubApiStats.GetRepoStats: requires a finishing reply sequence for each of the two contributions, for the same reason.
- Arxiv2Github.SearchInString: requires a non-empty marker; with an empty one the source's loop never ends.
- GithubApiStats.RepoFromUrl: returns `None` where Python raises IndexError for a URL with fewer than three pieces.
- GithubApiStats.Render: requests are modelled as `Query` values; their text is given by `Render` but not otherwise reasoned about for the summary query.
- QueryAds.QueryAds: the source writes `arxiv_id` into the paper's own `_raw` dictionary and returns that same dictionary. The model returns new records and does not capture this aliasing.
- `paper.identifier` and `paper.citation_count` are separate fields of a paper rather than read out of `_raw`; the citation count is carried as an opaque JSON value.
- `np.unique`'s NumPy string dtypes (fixed-width, trailing NUL stripping) are not modelled; strings compare by code point.
- The loop variable `hit` starts as NaN in the source; the model starts it at 0, which like NaN is not -1 and so enters the loop.
