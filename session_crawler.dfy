/** The browser-driven scraper (test.py): record extraction with counters and
    category, page-count discovery, the pagination loop, and the
    `(title, url)`-keyed catalog merge. The browser is an oracle: for every
    page it has reached it tells what the parsed page holds, and for every
    "next" click whether the click succeeded. */
module SessionCrawler {
  import opened Wrappers
  import opened Records
  import opened DropDuplicates

  // ---------------------------------------------------------------------
  // Record extraction (get_page_data)
  // ---------------------------------------------------------------------

  /** The record built for a card whose title anchor is `a`. */
  function CardRecord(item: Item, a: Anchor): Book
  {
    Book(a.text, "", item.category.GetOr("Hot"), "", a.href.GetOr(""), "",
         Some(item.views.GetOr("0")), Some(item.downloads.GetOr("0")))
  }

  /** The records of a page: one per card that has a title anchor, in page
      order. */
  ghost function PageRecords(items: seq<Item>): seq<Book>
  {
    if items == [] then []
    else
      var last := items[|items| - 1];
      PageRecords(items[..|items| - 1])
        + (if last.titleAnchor.Some? then [CardRecord(last, last.titleAnchor.value)] else [])
  }

  /** The positions of the cards that have a title anchor, in page order. */
  ghost function TitledPositions(items: seq<Item>): seq<nat>
  {
    if items == [] then []
    else
      TitledPositions(items[..|items| - 1])
        + (if items[|items| - 1].titleAnchor.Some? then [|items| - 1] else [])
  }

  /** The titled positions are in range, strictly increasing, and are
      exactly the positions of the cards that have a title anchor. */
  lemma {:induction false} TitledPositionsExact(items: seq<Item>)
    ensures forall k :: 0 <= k < |TitledPositions(items)| ==>
              TitledPositions(items)[k] < |items| && items[TitledPositions(items)[k]].titleAnchor.Some?
    ensures forall k, l :: 0 <= k < l < |TitledPositions(items)| ==>
              TitledPositions(items)[k] < TitledPositions(items)[l]
    ensures forall i :: 0 <= i < |items| ==>
              (items[i].titleAnchor.Some? <==> i in TitledPositions(items))
  {
    if items != [] {
      var n := |items| - 1;
      var init := items[..n];
      TitledPositionsExact(init);
      var pos := TitledPositions(init);
      assert forall i :: 0 <= i < n ==> items[i] == init[i];
      if items[n].titleAnchor.Some? {
        assert TitledPositions(items) == pos + [n];
      } else {
        assert TitledPositions(items) == pos;
      }
    }
  }

  /** `get_page_data` yields exactly one record per card that has a title
      anchor (record `k` comes from the `k`-th such card), skips every card
      without one, and keeps page order. */
  lemma {:induction false} PageRecordsPerTitledCard(items: seq<Item>)
    ensures |PageRecords(items)| == |TitledPositions(items)|
    ensures forall k :: 0 <= k < |TitledPositions(items)| ==>
              TitledPositions(items)[k] < |items| &&
              items[TitledPositions(items)[k]].titleAnchor.Some? &&
              PageRecords(items)[k] == CardRecord(items[TitledPositions(items)[k]],
                                                  items[TitledPositions(items)[k]].titleAnchor.value)
    ensures forall k, l :: 0 <= k < l < |TitledPositions(items)| ==>
              TitledPositions(items)[k] < TitledPositions(items)[l]
    ensures forall i :: 0 <= i < |items| ==>
              (items[i].titleAnchor.Some? <==> i in TitledPositions(items))
  {
    TitledPositionsExact(items);
    if items != [] {
      var n := |items| - 1;
      var init, last := items[..n], items[n];
      PageRecordsPerTitledCard(init);
      var recs, pos := PageRecords(init), TitledPositions(init);
      var pr, tp := PageRecords(items), TitledPositions(items);
      if last.titleAnchor.Some? {
        assert pr == recs + [CardRecord(last, last.titleAnchor.value)];
        assert tp == pos + [n];
        forall k | 0 <= k < |tp|
          ensures pr[k] == CardRecord(items[tp[k]], items[tp[k]].titleAnchor.value)
        {
          if k < |pos| {
            assert pr[k] == recs[k] && tp[k] == pos[k];
            assert items[pos[k]] == init[pos[k]];
          } else {
            assert k == |pos| && pr[k] == CardRecord(last, last.titleAnchor.value) && tp[k] == n;
          }
        }
      } else {
        assert pr == recs;
        assert tp == pos;
        forall k | 0 <= k < |tp|
          ensures pr[k] == CardRecord(items[tp[k]], items[tp[k]].titleAnchor.value)
        {
          assert items[pos[k]] == init[pos[k]];
        }
      }
    }
  }

  /** Every record of a page has empty `author`, `status` and `file_path`, and
      carries `views` and `downloads`; a missing counter reads `"0"` and a
      missing category reads `"Hot"`, and present ones are copied. */
  lemma PageRecordFields(items: seq<Item>)
    ensures forall b :: b in PageRecords(items) ==>
              b.author == "" && b.status == "" && b.filePath == "" && b.views.Some? && b.downloads.Some?
    ensures forall k :: 0 <= k < |PageRecords(items)| ==>
              && k < |TitledPositions(items)|
              && TitledPositions(items)[k] < |items|
              && items[TitledPositions(items)[k]].titleAnchor.Some?
              && var item := items[TitledPositions(items)[k]];
              var b := PageRecords(items)[k];
              && b.title == item.titleAnchor.value.text
              && (item.titleAnchor.value.href.None? ==> b.url == "")
              && (item.titleAnchor.value.href.Some? ==> b.url == item.titleAnchor.value.href.value)
              && (item.views.None? ==> b.views == Some("0"))
              && (item.views.Some? ==> b.views == item.views)
              && (item.downloads.None? ==> b.downloads == Some("0"))
              && (item.downloads.Some? ==> b.downloads == item.downloads)
              && (item.category.None? ==> b.genre == "Hot")
              && (item.category.Some? ==> b.genre == item.category.value)
  {
    PageRecordsPerTitledCard(items);
  }

  /** The extraction loop of `get_page_data`. */
  method GetPageData(items: seq<Item>) returns (books: seq<Book>)
    ensures books == PageRecords(items)
  {
    books := [];
    for i := 0 to |items|
      invariant books == PageRecords(items[..i])
    {
      assert items[..i + 1][..i] == items[..i];
      var item := items[i];
      if item.titleAnchor.Some? {
        var title := item.titleAnchor.value.text;
        var link := item.titleAnchor.value.href.GetOr("");
        var views := if item.views.Some? then item.views.value else "0";
        var downloads := if item.downloads.Some? then item.downloads.value else "0";
        var category := if item.category.Some? then item.category.value else "Hot";
        books := books + [Book(title, "", category, "", link, "", Some(views), Some(downloads))];
      }
    }
    assert items[..|items|] == items;
  }

  // ---------------------------------------------------------------------
  // Page-count discovery (get_pagination_info)
  // ---------------------------------------------------------------------

  /** The `data-flatsome-relay` descriptor, once its JSON has been parsed:
      each key may be missing. */
  datatype Relay = Relay(currentPage: Option<int>, totalPages: Option<int>)

  /** What a page offers for discovering pagination: the parsed relay
      descriptor (`None` when the element is missing or its JSON does not
      parse) and the stripped texts of the `.page-numbers .page-number`
      elements (`None` when querying them fails). */
  datatype PageMeta = PageMeta(relay: Option<Relay>, pageLabels: Option<seq<string>>)

  predicate AllDigits(s: string)
  {
    forall i :: 0 <= i < |s| ==> '0' <= s[i] <= '9'
  }

  /** Python's `str.isdigit` on ASCII text: non-empty and all digits. */
  predicate IsDigitLabel(s: string)
  {
    |s| > 0 && AllDigits(s)
  }

  /** Python's `int` on a string of decimal digits. */
  function DigitsValue(s: string): nat
    requires AllDigits(s)
  {
    if s == [] then 0
    else DigitsValue(s[..|s| - 1]) * 10 + (s[|s| - 1] as int - '0' as int)
  }

  /** The fallback page total: the largest all-digit label, seeded at 1. */
  function MaxPageLabel(labels: seq<string>): int
  {
    if labels == [] then 1
    else
      var m := MaxPageLabel(labels[..|labels| - 1]);
      var last := labels[|labels| - 1];
      if IsDigitLabel(last) && DigitsValue(last) > m then DigitsValue(last) else m
  }

  /** The fallback total is at least 1, bounds every all-digit label, and is
      either 1 or the value of one of them; other labels are ignored. */
  lemma {:induction false} MaxPageLabelIsMaximum(labels: seq<string>)
    ensures MaxPageLabel(labels) >= 1
    ensures forall i :: 0 <= i < |labels| && IsDigitLabel(labels[i]) ==> DigitsValue(labels[i]) <= MaxPageLabel(labels)
    ensures MaxPageLabel(labels) == 1 ||
            exists i :: 0 <= i < |labels| && IsDigitLabel(labels[i]) && DigitsValue(labels[i]) == MaxPageLabel(labels)
  {
    if labels != [] {
      var init := labels[..|labels| - 1];
      MaxPageLabelIsMaximum(init);
      forall i | 0 <= i < |init| ensures labels[i] == init[i] { }
      if MaxPageLabel(labels) != 1 && MaxPageLabel(labels) == MaxPageLabel(init) {
        var i :| 0 <= i < |init| && IsDigitLabel(init[i]) && DigitsValue(init[i]) == MaxPageLabel(init);
        assert labels[i] == init[i];
      }
    }
  }

  /** The fallback loop of `get_pagination_info`. */
  method PaginationFallback(labels: seq<string>) returns (current: int, total: int)
    ensures current == 1
    ensures total == MaxPageLabel(labels)
  {
    var maxPage := 1;
    for i := 0 to |labels|
      invariant maxPage == MaxPageLabel(labels[..i])
    {
      assert labels[..i + 1][..i] == labels[..i];
      var text := labels[i];
      if IsDigitLabel(text) && DigitsValue(text) > maxPage {
        maxPage := DigitsValue(text);
      }
    }
    assert labels[..|labels|] == labels;
    return 1, maxPage;
  }

  /** `get_pagination_info`: the relay's values (each defaulting to 1), else
      current page 1 with the fallback total, else `(1, 1)`. */
  function PaginationInfo(meta: PageMeta): (r: (int, int))
    ensures meta.relay.Some? ==>
              (meta.relay.value.currentPage.None? ==> r.0 == 1) &&
              (meta.relay.value.currentPage.Some? ==> r.0 == meta.relay.value.currentPage.value) &&
              (meta.relay.value.totalPages.None? ==> r.1 == 1) &&
              (meta.relay.value.totalPages.Some? ==> r.1 == meta.relay.value.totalPages.value)
    ensures meta.relay.None? ==> r.0 == 1 && r.1 >= 1
    ensures meta.relay.None? && meta.pageLabels.Some? ==>
              forall i :: 0 <= i < |meta.pageLabels.value| && IsDigitLabel(meta.pageLabels.value[i]) ==>
                DigitsValue(meta.pageLabels.value[i]) <= r.1
    ensures meta.relay.None? && meta.pageLabels.Some? ==>
              r.1 == 1 ||
              exists i :: 0 <= i < |meta.pageLabels.value| && IsDigitLabel(meta.pageLabels.value[i]) &&
                DigitsValue(meta.pageLabels.value[i]) == r.1
    ensures meta.relay.None? && meta.pageLabels.None? ==> r == (1, 1)
  {
    match meta.relay
    case Some(relay) => (relay.currentPage.GetOr(1), relay.totalPages.GetOr(1))
    case None =>
      match meta.pageLabels
      case Some(labels) => MaxPageLabelIsMaximum(labels); (1, MaxPageLabel(labels))
      case None => (1, 1)
  }

  // ---------------------------------------------------------------------
  // The pagination loop (scrape_all_pages_selenium)
  // ---------------------------------------------------------------------

  /** What the browser shows on a page it has reached. */
  datatype PageState = PageState(meta: PageMeta, items: seq<Item>)

  /** The browser as an oracle. `loaded` says whether a catalog card appeared
      within the initial wait; `page(k)` is the page reached after `k`
      successful "next" clicks; `advance(k)` is the outcome of
      `safe_click_next_page` on that page. */
  datatype Session = Session(loaded: bool, page: nat -> PageState, advance: nat -> bool)

  /** The fatal failure of a run: no catalog card appeared in time. */
  datatype CrawlError = PageLoadTimeout

  /** A finished run: the collected records, the value of `page_count`, and
      how many times `safe_click_next_page` was called. */
  datatype Crawl = Crawl(books: seq<Book>, pages: nat, advanceAttempts: nat)

  /** The number of pages the loop will visit: the discovered total, capped by
      `max_pages` unless it is falsy (`None` or 0). */
  function PageLimit(s: Session, maxPages: Option<int>): int
  {
    var total := PaginationInfo(s.page(0).meta).1;
    if maxPages.Some? && maxPages.value != 0 then
      if maxPages.value < total then maxPages.value else total
    else total
  }

  /** The current page number read on page `k`. */
  function CurrentPage(s: Session, k: nat): int
  {
    PaginationInfo(s.page(k).meta).0
  }

  /** After visiting page `k`, the loop moves on to page `k + 1`: that page is
      within the limit, the click succeeded, and the page number grew. */
  predicate MovesOn(s: Session, limit: int, k: nat)
  {
    k + 1 < limit && s.advance(k) && CurrentPage(s, k + 1) > CurrentPage(s, k)
  }

  /** How many pages the loop has visited when it stops, given that it has
      visited `k` and is about to test the loop guard. */
  function PagesVisited(s: Session, limit: int, k: nat): nat
    decreases if k < limit then limit - k else 0
  {
    if k >= limit then k
    else if MovesOn(s, limit, k) then PagesVisited(s, limit, k + 1)
    else k + 1
  }

  /** The per-page extractions of the first `n` pages, in visit order. */
  ghost function Collected(s: Session, n: nat): seq<Book>
  {
    if n == 0 then [] else Collected(s, n - 1) + PageRecords(s.page(n - 1).items)
  }

  /** `scrape_all_pages_selenium`, from the initial wait to the end of the
      loop. */
  method ScrapeAllPages(s: Session, maxPages: Option<int>) returns (r: Result<Crawl, CrawlError>)
    ensures !s.loaded <==> r == Failure(PageLoadTimeout)
    ensures r.Success? ==>
              var limit := PageLimit(s, maxPages);
              && r.value.pages == PagesVisited(s, limit, 0)
              && r.value.books == Collected(s, r.value.pages)
              && r.value.advanceAttempts == (if r.value.pages > 0 && r.value.pages >= limit then r.value.pages - 1 else r.value.pages)
    ensures r.Success? && PageLimit(s, maxPages) <= 0 ==> r.value.pages == 0 && r.value.books == []
    ensures r.Success? && PageLimit(s, maxPages) > 0 ==>
              1 <= r.value.pages <= PageLimit(s, maxPages) && r.value.advanceAttempts < PageLimit(s, maxPages)
  {
    if !s.loaded {
      return Failure(PageLoadTimeout);
    }
    var discovered := PaginationInfo(s.page(0).meta);
    var totalPages := discovered.1;
    if maxPages.Some? && maxPages.value != 0 {
      totalPages := if maxPages.value < totalPages then maxPages.value else totalPages;
    }
    ghost var limit := PageLimit(s, maxPages);
    assert totalPages == limit;
    var allBooks: seq<Book> := [];
    var pageCount: nat := 0;
    var attempts: nat := 0;
    while pageCount < totalPages
      invariant PagesVisited(s, limit, pageCount) == PagesVisited(s, limit, 0)
      invariant allBooks == Collected(s, pageCount)
      invariant pageCount <= limit || pageCount == 0
      invariant attempts == (if pageCount > 0 && pageCount >= limit then pageCount - 1 else pageCount)
    {
      pageCount := pageCount + 1;
      var currentPage := CurrentPage(s, pageCount - 1);
      var pageData := GetPageData(s.page(pageCount - 1).items);
      allBooks := allBooks + pageData;
      assert allBooks == Collected(s, pageCount);
      if pageCount < totalPages {
        attempts := attempts + 1;
        if !s.advance(pageCount - 1) {
          assert PagesVisited(s, limit, pageCount - 1) == pageCount;
          break;
        }
        var newCurrent := CurrentPage(s, pageCount);
        if newCurrent <= currentPage {
          assert PagesVisited(s, limit, pageCount - 1) == pageCount;
          break;
        }
        assert MovesOn(s, limit, pageCount - 1);
      }
    }
    PagesVisitedBounds(s, limit, 0);
    r := Success(Crawl(allBooks, pageCount, attempts));
  }

  /** The loop visits at most `limit` pages, and at least one when the limit
      is positive; with a limit of zero or less it visits none. */
  lemma {:induction false} PagesVisitedBounds(s: Session, limit: int, k: nat)
    ensures k < limit ==> k + 1 <= PagesVisited(s, limit, k) <= limit
    ensures k >= limit ==> PagesVisited(s, limit, k) == k
    decreases if k < limit then limit - k else 0
  {
    if k < limit && MovesOn(s, limit, k) {
      PagesVisitedBounds(s, limit, k + 1);
    }
  }

  /** The loop stops at the first page from which it does not move on: it
      moved on from every page before the last one visited, and if it
      stopped short of the limit, the click on the last visited page failed
      or the page number did not grow. */
  lemma {:induction false} PagesVisitedStopsAtFirstFailure(s: Session, limit: int, k: nat)
    requires k < limit
    ensures PagesVisited(s, limit, k) >= k + 1
    ensures forall j :: k <= j < PagesVisited(s, limit, k) - 1 ==> MovesOn(s, limit, j)
    ensures PagesVisited(s, limit, k) < limit ==>
              !s.advance(PagesVisited(s, limit, k) - 1) ||
              CurrentPage(s, PagesVisited(s, limit, k)) <= CurrentPage(s, PagesVisited(s, limit, k) - 1)
    decreases limit - k
  {
    if MovesOn(s, limit, k) {
      PagesVisitedStopsAtFirstFailure(s, limit, k + 1);
    }
  }

  /** When every click succeeds and every page number grows, the loop visits
      exactly `limit` pages. */
  lemma {:induction false} PagesVisitedAllAdvance(s: Session, limit: int, k: nat)
    requires k < limit
    requires forall j :: k <= j && j + 1 < limit ==> s.advance(j) && CurrentPage(s, j + 1) > CurrentPage(s, j)
    ensures PagesVisited(s, limit, k) == limit
    decreases limit - k
  {
    if k + 1 < limit {
      PagesVisitedAllAdvance(s, limit, k + 1);
    }
  }

  /** Without a relay descriptor the current page always reads 1, so the loop
      never gets past the first page, whatever total the fallback found. */
  lemma WithoutRelayOnlyFirstPage(s: Session, limit: int)
    requires s.page(0).meta.relay.None? && s.page(1).meta.relay.None?
    requires limit >= 1
    ensures PagesVisited(s, limit, 0) == 1
  {
  }

  /** When discovery fails entirely, the run has a single page and collects
      exactly that page's records. */
  lemma DiscoveryFailureSinglePage(s: Session, maxPages: Option<int>)
    requires s.page(0).meta == PageMeta(None, None)
    requires maxPages.None? || maxPages.value >= 0
    ensures PageLimit(s, maxPages) == 1
    ensures PagesVisited(s, PageLimit(s, maxPages), 0) == 1
    ensures Collected(s, 1) == PageRecords(s.page(0).items)
  {
  }

  // ---------------------------------------------------------------------
  // Catalog merge (update_csv)
  // ---------------------------------------------------------------------

  /** `update_csv`: the catalog file after the update. The file is `None`
      when it is missing, has size 0, or holds no table; otherwise it holds
      the table's rows. */
  function UpdateCsv(file: Option<seq<Book>>, newData: seq<Book>): (r: Option<seq<Book>>)
    ensures newData == [] ==> r == file
    ensures newData != [] && file.None? ==> r == Some(newData)
    ensures newData != [] && file.Some? ==>
              r.Some? && DeduplicatedFrom(r.value, file.value + newData, TitleUrlKey)
    ensures newData != [] && file.Some? ==>
              forall b :: b in r.value && TitleUrlKey(b) in KeySet(file.value, TitleUrlKey) ==> b in file.value
  {
    if newData == [] then file
    else
      match file
      case None => Some(newData)
      case Some(oldData) =>
        DedupIsDeduplicated(oldData + newData, TitleUrlKey);
        FirstPartWins(oldData, newData, TitleUrlKey);
        Some(Dedup(oldData + newData, TitleUrlKey))
  }

  /** Running the update a second time with the same new data changes
      nothing, once the file held a table or the new data had unique keys. */
  lemma UpdateCsvRerun(file: Option<seq<Book>>, newData: seq<Book>)
    requires file.Some? || KeysUnique(newData, TitleUrlKey)
    ensures UpdateCsv(UpdateCsv(file, newData), newData) == UpdateCsv(file, newData)
  {
    if newData != [] {
      var all := if file.Some? then file.value + newData else newData;
      if file.Some? {
        DedupIsDeduplicated(all, TitleUrlKey);
        assert KeySet(newData, TitleUrlKey) <= KeySet(all, TitleUrlKey) by {
          forall b | b in newData ensures b in all { }
        }
        DedupAbsorbs(Dedup(all, TitleUrlKey), newData, TitleUrlKey);
        DedupIdempotent(all, TitleUrlKey);
      } else {
        DedupAbsorbs(newData, newData, TitleUrlKey);
        DedupFixedPoint(newData, TitleUrlKey);
      }
    }
  }

  /** Merging a table whose `(title, url)` keys are unique with itself gives
      the same table back. */
  lemma UpdateCsvSelfMerge(table: seq<Book>)
    requires KeysUnique(table, TitleUrlKey)
    ensures UpdateCsv(Some(table), table) == Some(table)
  {
    DedupAbsorbs(table, table, TitleUrlKey);
    DedupFixedPoint(table, TitleUrlKey);
  }
}
