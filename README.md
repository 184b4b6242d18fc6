# Book-listing scraper: a Dafny model of its logic

The scraper reads the listing pages of an e-book site and keeps a
deduplicated catalog file (`books.csv`) across runs. It has two front ends:

- `test.py` drives a browser. It finds the number of pages, walks them by
  clicking "next", and extracts title, link, view and download counters and
  category from every listing card.
- `main.py` fetches a single page over HTTP and extracts title and link from
  every card, plus a page-level genre.

Both end in `update_csv`. It concatenates the stored table before the new
rows and drops rows whose key repeats, keeping the first. The key is
`(title, url)` in `test.py` and `title` in `main.py`.

This project models that logic with the browser, the HTML parser and the
CSV library abstracted away:

- A parsed listing card is an `Item` whose sub-elements are `Option<string>`
  holding already stripped text (`records.dfy`).
- The browser is an oracle (`SessionCrawler.Session`). For the page reached
  after `k` successful clicks it gives what that page shows (relay
  descriptor, page-number labels, cards). For each click it gives whether
  `safe_click_next_page` succeeded.
- The catalog file is `Option<seq<Book>>`. `None` is a missing file, an
  empty file, or a file that holds no table. `update_csv` is a function from
  the old file and the new rows to the new file.

Modules:
- `Wrappers`: `Option` and `Result`.
- `Records`: cards, catalog rows, and the two deduplication keys.
- `DropDuplicates`: pandas' `drop_duplicates(keep="first")` over any key, with its properties.
- `SessionCrawler`: the `test.py` logic.
- `StaticFetcher`: the `main.py` logic.
- `CsvRoundTrip`: what reading the file back does to empty fields (see Findings).

Three behaviours of the code that are easy to miss:
- `main.py` indexes `title_tag["href"]`, which raises `KeyError` when the
  title anchor has no `href`, so `ScrapeBooks` returns an error naming the
  first such card.
- In `main.py`, empty new data still rewrites the file, with the old table
  deduplicated by title.
- When the relay descriptor is missing, the current page reads 1 on every
  page, so the loop stops after the first click (`WithoutRelayOnlyFirstPage`).

## Model

| member | source | states |
|---|---|---|
| `DropDuplicates.DedupFromProperties` | test.py:290 | the left-to-right scan with a set of seen keys keeps a subsequence with unique keys, loses no unseen key, and keeps every first occurrence of an unseen key |
| `DropDuplicates.DedupIsDeduplicated` | test.py:290 | `drop_duplicates(keep="first")` only deletes rows, leaves no repeated key and loses no key; every kept row is the first row of its key, and kept rows come in the order of those first rows |
| `DropDuplicates.DedupFromOrder` | test.py:290 | every row the left-to-right scan keeps, whatever keys it starts with as seen, is the first row of its key in the input, and kept rows come in the order of those first rows |
| `DropDuplicates.DedupFromAppend` | main.py:42 | deduplicating `old + new` is deduplicating `old`, then scanning `new` with every key of `old` already seen |
| `DropDuplicates.DedupFromAllSeen` | main.py:42 | rows whose keys were all seen already are all dropped |
| `DropDuplicates.DedupFromKeepsUnique` | main.py:42 | rows whose keys are unique and not yet seen are all kept, in order |
| `DropDuplicates.DedupFixedPoint` | test.py:290 | deduplication leaves a table unchanged if and only if its keys are already unique |
| `DropDuplicates.DedupIdempotent` | test.py:290 | deduplicating twice gives the same table as deduplicating once |
| `DropDuplicates.DedupAbsorbs` | test.py:290 | appending rows whose keys all occur already does not change the deduplicated table |
| `DropDuplicates.FirstPartWins` | test.py:290 | on a key collision between old and new rows, the row kept is an old row |
| `SessionCrawler.GetPageData` | test.py:61-97 | the extraction loop returns exactly the page's records (`PageRecords`) |
| `SessionCrawler.TitledPositionsExact` | test.py:68-71 | the positions of titled cards are in range, strictly increasing, and are exactly the cards that have a title anchor |
| `SessionCrawler.PageRecordsPerTitledCard` | test.py:68-95 | exactly one record per card with a title anchor; record `k` comes from the `k`-th such card; cards without an anchor are skipped; page order is kept |
| `SessionCrawler.PageRecordFields` | test.py:72-95 | each record has empty author, status and file_path; title is the anchor text; url is the href or `""`; missing views and downloads read `"0"` and a missing category reads `"Hot"`; present values are copied |
| `SessionCrawler.MaxPageLabelIsMaximum` | test.py:112-117 | the fallback total is at least 1, is at least every all-digit label, and is 1 or one of those labels; other labels are ignored |
| `SessionCrawler.PaginationFallback` | test.py:111-117 | the fallback loop returns current page 1 and the maximum page label seeded at 1 |
| `SessionCrawler.PaginationInfo` | test.py:99-119 | relay values are used when the relay parses, each missing key defaulting to 1; otherwise the current page is 1 and the total is the largest all-digit label, or 1 when no label is larger; with both sources failing the result is (1, 1) |
| `SessionCrawler.ScrapeAllPages` | test.py:223-276 | a failed initial wait is the only failure; otherwise the pages visited are `PagesVisited`, between 1 and the limit when the limit is positive and 0 otherwise; the records are the concatenation of the per-page extractions in visit order; fewer clicks than the limit are attempted, one per page except the last page of the limit |
| `SessionCrawler.PagesVisitedBounds` | test.py:240-247 | the loop visits at most the limit (the discovered total capped by a truthy `max_pages`), at least one page when it is positive, none otherwise |
| `SessionCrawler.PagesVisitedStopsAtFirstFailure` | test.py:258-269 | the loop moved on from every visited page before the last one; if it stopped short of the limit, the click from the last visited page failed or the page number did not grow |
| `SessionCrawler.PagesVisitedAllAdvance` | test.py:246-269 | when every click succeeds and every page number grows, exactly the limit's number of pages is visited |
| `SessionCrawler.WithoutRelayOnlyFirstPage` | test.py:248-269 | without a relay descriptor both page reads give current page 1, so only the first page is visited |
| `SessionCrawler.DiscoveryFailureSinglePage` | test.py:237-247 | when the relay and the page labels both fail, the limit is 1 and the run collects exactly the first page's records |
| `SessionCrawler.UpdateCsv` | test.py:278-297 | empty new data leaves the file unchanged; a missing or empty file becomes exactly the new data with no deduplication; otherwise the result is `old + new` deduplicated by `(title, url)` keeping the first, so old rows win on collision and kept rows stay in order |
| `SessionCrawler.UpdateCsvRerun` | test.py:290 | a second update with the same new data changes nothing, once the file held a table or the new keys were unique |
| `SessionCrawler.UpdateCsvSelfMerge` | test.py:290 | merging a table whose `(title, url)` keys are unique with itself returns it unchanged |
| `StaticFetcher.ScrapeBooks` | main.py:8-34 | fails exactly when some card's title anchor has no href, naming the first such card; otherwise one record per card in order, with title and url `""` when the anchor is missing, genre the page heading or `""`, empty author, status and file_path, and no views or downloads |
| `StaticFetcher.UpdateCsv` | main.py:36-46 | a missing or empty file becomes the new data unchanged; an existing table becomes `old + new` deduplicated by title keeping the first in order, also for empty new data (old deduplicated) |
| `StaticFetcher.UpdateCsvRerun` | main.py:42 | a second update with the same new data changes nothing, once the file held a table or the new titles were unique |
| `StaticFetcher.UpdateCsvSelfMerge` | main.py:42 | merging a table whose titles are unique with itself returns it unchanged |
| `CsvRoundTrip.MergeAsRead` | test.py:288-290 | the merge as written, with stored keys as read back and new keys as scraped: its rows are a subsequence of old followed by new, and as keyed rows no two keys are equal, no key is lost, and first rows are kept in order |
| `CsvRoundTrip.ReadBackKeyMatches` | test.py:288-290 | a row's key as read back from the file equals its key as scraped if and only if the key's fields are non-empty (title and url for `test.py`, title for `main.py`) |
| `CsvRoundTrip.SessionRerunOneBook` | test.py:288-290 | as written, rerunning a one-book file with the same scrape keeps the book twice when its title or url is empty, and once otherwise |
| `CsvRoundTrip.StaticRerunOneBook` | main.py:37-42 | as written, rerunning a one-card file with the same scrape keeps the card twice when its title is empty, and once otherwise |
| `CsvRoundTrip.SessionRerunDuplicatesEmptyUrl` | test.py:288-290 | as written, rerunning with a stored book whose url is empty keeps it twice; the model's merge keeps it once |
| `CsvRoundTrip.StaticRerunDuplicatesEmptyTitle` | main.py:41-42 | as written, rerunning with a stored card that has no title keeps it twice; the model's merge keeps it once |

## Left out

- Browser setup and options (test.py:14-59): foreign configuration.
- Popup and overlay dismissal, closing extra windows, waits, sleeps, scrolling and JavaScript clicks (test.py:121-221): browser timing and interaction. `safe_click_next_page` is the oracle's boolean `advance(k)`; its redirect check and swallowed exceptions are folded into that outcome.
- The browser is assumed to answer the same page read the same way. The model reads the page number once per page, though the source reads it at test.py:266 and again at test.py:248.
- JSON parsing of `data-flatsome-relay` (test.py:102-103): the model receives the parsed descriptor or `None`. A key holding a non-integer JSON value is not modelled.
- `PaginationInfo`: `str.isdigit` is modelled on ASCII digits only. Python also accepts other Unicode decimal digits, which `int` converts to numbers. It also accepts digit characters such as "²" that `int` rejects; the `ValueError` then reaches the bare `except` at test.py:118 and the source returns `(1, 1)`, while the model has no such label.
- The page-number labels are taken as already stripped (test.py:115 strips them before `isdigit`).
- HTTP GET (main.py:9) and BeautifulSoup parsing and CSS selection: the model starts from parsed cards and the parsed heading.
- CSV reading and writing, file-existence and size checks, and the `utf-8-sig` encoding (test.py:283-296, main.py:37-46): the file is `Option<seq<Book>>`. Except for empty fields (see Findings), reading back is taken to return what was written. pandas' type inference, which turns counters like `"0"` into numbers, is not modelled.
- `CsvRoundTrip.ReadCell`: only the empty field is read back as NaN. pandas' other default NA strings ("NA", "N/A", "n/a", "NULL", "null", "NaN", "nan", "#N/A", "<NA>", and more) also become NaN on reading, so a book titled "NA" is hit the same way; they are not modelled.
- All printing and the statistics block (test.py:300-322, main.py:31, main.py:48-53).
- `StaticFetcher.UpdateCsv`: with no old table and a scrape that found no card, the result is a file with no columns. It is modelled as `None` because it reads back as no table.

## Findings

| source | as written | input that shows it | evidently intended | confidence | as-written member | corrected member |
|---|---|---|---|---|---|---|
| test.py:288-290 | `pd.read_csv` turns an empty url back into NaN. `drop_duplicates` does not match NaN against the freshly scraped `""`. | A stored book whose anchor has no `href`, then the same scrape again: the book ends up in the file twice. | Rerunning the update with the same scrape changes nothing. | medium, not executed | `CsvRoundTrip.SessionRerunDuplicatesEmptyUrl` | `SessionCrawler.UpdateCsvRerun` |
| main.py:41-42 | The same happens for an empty title. | A stored card that had no title anchor, then the same scrape again: the card ends up in the file twice. | Rerunning the update with the same scrape changes nothing. | medium, not executed | `CsvRoundTrip.StaticRerunDuplicatesEmptyTitle` | `StaticFetcher.UpdateCsvRerun` |
