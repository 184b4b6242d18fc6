/** The plain HTTP scraper (main.py): one page, one record per listing card,
    a page-level genre, and the `title`-keyed catalog merge. */
module StaticFetcher {
  import opened Wrappers
  import opened Records
  import opened DropDuplicates

  /** One fetched and parsed listing page: the stripped text of its `.tieu_de`
      heading, if any, and its `.product-small` cards. */
  datatype Page = Page(heading: Option<string>, items: seq<Item>)

  /** `title_tag["href"]` raises `KeyError` on the card at `position` because
      its title anchor has no `href`; the exception ends the run. */
  datatype ScrapeError = MissingHref(position: nat)

  /** The card's title anchor exists but has no `href` attribute. */
  predicate LacksHref(item: Item)
  {
    item.titleAnchor.Some? && item.titleAnchor.value.href.None?
  }

  /** `scrape_books`, from the parsed page on. */
  method ScrapeBooks(page: Page) returns (r: Result<seq<Book>, ScrapeError>)
    ensures r.Failure? <==> exists i :: 0 <= i < |page.items| && LacksHref(page.items[i])
    ensures r.Failure? ==>
              r.error.position < |page.items| && LacksHref(page.items[r.error.position]) &&
              forall i :: 0 <= i < r.error.position ==> !LacksHref(page.items[i])
    ensures r.Success? ==> |r.value| == |page.items|
    ensures r.Success? ==> forall k :: 0 <= k < |r.value| ==>
              var item, b := page.items[k], r.value[k];
              && (item.titleAnchor.None? ==> b.title == "" && b.url == "")
              && (item.titleAnchor.Some? ==>
                    b.title == item.titleAnchor.value.text && Some(b.url) == item.titleAnchor.value.href)
    ensures r.Success? ==> forall b :: b in r.value ==>
              && b.genre == page.heading.GetOr("")
              && b.author == "" && b.status == "" && b.filePath == ""
              && b.views.None? && b.downloads.None?
  {
    var books: seq<Book> := [];
    var genre := if page.heading.Some? then page.heading.value else "";
    for i := 0 to |page.items|
      invariant |books| == i
      invariant forall j :: 0 <= j < i ==> !LacksHref(page.items[j])
      invariant forall k :: 0 <= k < i ==>
                  var item, b := page.items[k], books[k];
                  && (item.titleAnchor.None? ==> b.title == "" && b.url == "")
                  && (item.titleAnchor.Some? ==>
                        b.title == item.titleAnchor.value.text && Some(b.url) == item.titleAnchor.value.href)
      invariant forall b :: b in books ==>
                  && b.genre == genre
                  && b.author == "" && b.status == "" && b.filePath == ""
                  && b.views.None? && b.downloads.None?
    {
      var titleTag := page.items[i].titleAnchor;
      var title := if titleTag.Some? then titleTag.value.text else "";
      var link := "";
      if titleTag.Some? {
        if titleTag.value.href.None? {
          return Failure(MissingHref(i));
        }
        link := titleTag.value.href.value;
      }
      var status := "";
      books := books + [Book(title, "", genre, status, link, "", None, None)];
    }
    return Success(books);
  }

  /** `update_csv`: the catalog file after the update. The file is `None`
      when it is missing, has size 0, or holds no table; otherwise it holds
      the table's rows. Writing a scrape that found no card leaves a file
      without columns, which reads back as no table. */
  function UpdateCsv(file: Option<seq<Book>>, newData: seq<Book>): (r: Option<seq<Book>>)
    ensures file.None? && newData != [] ==> r == Some(newData)
    ensures file.None? && newData == [] ==> r.None?
    ensures file.Some? ==> r.Some? && DeduplicatedFrom(r.value, file.value + newData, TitleKey)
    ensures file.Some? ==>
              forall b :: b in r.value && TitleKey(b) in KeySet(file.value, TitleKey) ==> b in file.value
    ensures file.Some? && newData == [] ==> r.Some? && DeduplicatedFrom(r.value, file.value, TitleKey)
  {
    match file
    case None => if newData == [] then None else Some(newData)
    case Some(oldData) =>
      DedupIsDeduplicated(oldData + newData, TitleKey);
      FirstPartWins(oldData, newData, TitleKey);
      assert newData == [] ==> oldData + newData == oldData;
      Some(Dedup(oldData + newData, TitleKey))
  }

  /** Running the update a second time with the same new data changes
      nothing, once the file held a table or the new titles were unique. */
  lemma UpdateCsvRerun(file: Option<seq<Book>>, newData: seq<Book>)
    requires file.Some? || KeysUnique(newData, TitleKey)
    ensures UpdateCsv(UpdateCsv(file, newData), newData) == UpdateCsv(file, newData)
  {
    if file.Some? {
      var all := file.value + newData;
      DedupIsDeduplicated(all, TitleKey);
      assert KeySet(newData, TitleKey) <= KeySet(all, TitleKey) by {
        forall b | b in newData ensures b in all { }
      }
      DedupAbsorbs(Dedup(all, TitleKey), newData, TitleKey);
      DedupIdempotent(all, TitleKey);
    } else if newData != [] {
      DedupAbsorbs(newData, newData, TitleKey);
      DedupFixedPoint(newData, TitleKey);
    }
  }

  /** Merging a table whose titles are unique with itself gives the same
      table back. */
  lemma UpdateCsvSelfMerge(table: seq<Book>)
    requires KeysUnique(table, TitleKey)
    ensures UpdateCsv(Some(table), table) == Some(table)
  {
    DedupAbsorbs(table, table, TitleKey);
    DedupFixedPoint(table, TitleKey);
  }
}
