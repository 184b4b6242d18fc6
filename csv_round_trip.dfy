/** What `pd.read_csv` does to the stored catalog before the merge, with its
    default settings: an empty field becomes NaN. NaN matches NaN in
    `drop_duplicates`, but it does not match the empty string that a fresh
    scrape carries, so a book whose title or url is empty is not recognised
    as already stored. The rest of the model reads the file back exactly as
    written (as `keep_default_na=False` would). */
module CsvRoundTrip {
  import opened Wrappers
  import opened Records
  import opened DropDuplicates
  import SessionCrawler
  import StaticFetcher

  /** A cell of a data frame key column: text, or pandas' NaN. */
  datatype Cell = Text(text: string) | NaN

  /** A field as `read_csv` yields it: the empty field is NaN. (The other
      strings that pandas reads as NaN by default are not modelled.) */
  function ReadCell(s: string): Cell
  {
    if s == "" then NaN else Text(s)
  }

  /** The `(title, url)` key of a row read from the file. */
  function StoredTitleUrl(b: Book): (Cell, Cell)
  {
    (ReadCell(b.title), ReadCell(b.url))
  }

  /** The `(title, url)` key of a freshly scraped row. */
  function FreshTitleUrl(b: Book): (Cell, Cell)
  {
    (Text(b.title), Text(b.url))
  }

  /** The `title` key of a row read from the file. */
  function StoredTitle(b: Book): Cell
  {
    ReadCell(b.title)
  }

  /** The `title` key of a freshly scraped row. */
  function FreshTitle(b: Book): Cell
  {
    Text(b.title)
  }

  /** A stored row is recognised as the same scraped row exactly when the
      fields of its key are not empty: for every book, its key as read back
      from the file equals its key as scraped if and only if its title and
      url (for the title key, its title) are non-empty. */
  lemma ReadBackKeyMatches(b: Book)
    ensures StoredTitleUrl(b) == FreshTitleUrl(b) <==> b.title != "" && b.url != ""
    ensures StoredTitle(b) == FreshTitle(b) <==> b.title != ""
  {
  }

  /** Rows paired with the key each is compared by. */
  function Tag<K>(rows: seq<Book>, key: Book -> K): seq<(Book, K)>
  {
    seq(|rows|, i requires 0 <= i < |rows| => (rows[i], key(rows[i])))
  }

  /** The rows of a tagged table. */
  function Untag<K>(rows: seq<(Book, K)>): seq<Book>
  {
    seq(|rows|, i requires 0 <= i < |rows| => rows[i].0)
  }

  /** The key a tagged row is compared by. */
  function PairKey<K>(p: (Book, K)): K
  {
    p.1
  }

  /** Dropping the keys of a keyed table gives back its rows; this holds of
      a concatenation of keyed tables too. */
  lemma UntagTag<K>(xs: seq<Book>, ys: seq<Book>, kx: Book -> K, ky: Book -> K)
    ensures Untag(Tag(xs, kx)) == xs
    ensures Untag(Tag(xs, kx) + Tag(ys, ky)) == xs + ys
  {
    var t := Tag(xs, kx) + Tag(ys, ky);
    assert forall i :: 0 <= i < |xs| ==> t[i] == (xs[i], kx(xs[i]));
    assert forall i :: |xs| <= i < |t| ==> t[i] == (ys[i - |xs|], ky(ys[i - |xs|]));
  }

  /** Dropping the keys keeps a subsequence a subsequence. */
  lemma {:induction false} UntagSubsequence<K>(s: seq<(Book, K)>, t: seq<(Book, K)>)
    requires IsSubsequence(s, t)
    ensures IsSubsequence(Untag(s), Untag(t))
    decreases |t|
  {
    if s != [] {
      assert Untag(t)[1..] == Untag(t[1..]);
      assert Untag(s)[1..] == Untag(s[1..]);
      if s[0] == t[0] && IsSubsequence(s[1..], t[1..]) {
        UntagSubsequence(s[1..], t[1..]);
      } else {
        UntagSubsequence(s, t[1..]);
      }
    }
  }

  /** The merge branch of `update_csv` as written: stored rows keyed as read
      back, new rows keyed as scraped, concatenated and deduplicated by
      those keys. The result keeps each row with its key. Its rows are a
      subsequence of the stored rows followed by the new ones, and it is
      what `drop_duplicates(keep="first")` promises of the keyed rows: no
      two keys equal, none lost, first rows kept in order. */
  function MergeAsRead<K(==)>(stored: seq<Book>, newData: seq<Book>, storedKey: Book -> K, freshKey: Book -> K): (r: seq<(Book, K)>)
    ensures DeduplicatedFrom(r, Tag(stored, storedKey) + Tag(newData, freshKey), PairKey)
    ensures IsSubsequence(Untag(r), stored + newData)
  {
    var tagged := Tag(stored, storedKey) + Tag(newData, freshKey);
    DedupIsDeduplicated(tagged, PairKey);
    UntagSubsequence(Dedup(tagged, PairKey), tagged);
    UntagTag(stored, newData, storedKey, freshKey);
    Dedup(tagged, PairKey)
  }

  /** Deduplicating two rows keeps both exactly when their keys differ. */
  lemma DedupTwoRows<T, K>(x: T, y: T, key: T -> K)
    ensures key(x) != key(y) ==> Dedup([x, y], key) == [x, y]
    ensures key(x) == key(y) ==> Dedup([x, y], key) == [x]
  {
    var seen: set<K> := {};
    assert [x, y][1..] == [y];
    assert [y][1..] == [];
    assert Dedup([x, y], key) == [x] + DedupFrom([y], key, seen + {key(x)});
    assert DedupFrom([], key, seen + {key(x)} + {key(y)}) == [];
    assert DedupFrom([], key, seen + {key(x)}) == [];
  }

  /** test.py as written, for every one-book file rerun with the same scrape:
      the book is kept twice exactly when its title or its url is empty. */
  lemma SessionRerunOneBook(b: Book)
    ensures b.title == "" || b.url == "" ==>
              Untag(MergeAsRead([b], [b], StoredTitleUrl, FreshTitleUrl)) == [b, b]
    ensures b.title != "" && b.url != "" ==>
              Untag(MergeAsRead([b], [b], StoredTitleUrl, FreshTitleUrl)) == [b]
  {
    var tagged := Tag([b], StoredTitleUrl) + Tag([b], FreshTitleUrl);
    assert tagged == [(b, StoredTitleUrl(b)), (b, FreshTitleUrl(b))];
    ReadBackKeyMatches(b);
    DedupTwoRows(tagged[0], tagged[1], PairKey);
  }

  /** main.py as written, for every one-card file rerun with the same scrape:
      the card is kept twice exactly when its title is empty. */
  lemma StaticRerunOneBook(b: Book)
    ensures b.title == "" ==> Untag(MergeAsRead([b], [b], StoredTitle, FreshTitle)) == [b, b]
    ensures b.title != "" ==> Untag(MergeAsRead([b], [b], StoredTitle, FreshTitle)) == [b]
  {
    var tagged := Tag([b], StoredTitle) + Tag([b], FreshTitle);
    assert tagged == [(b, StoredTitle(b)), (b, FreshTitle(b))];
    ReadBackKeyMatches(b);
    DedupTwoRows(tagged[0], tagged[1], PairKey);
  }

  /** test.py as written: a book whose anchor has no `href` is stored with an
      empty url; rerunning the update with the same scrape keeps it twice,
      where the model's merge keeps it once. */
  lemma SessionRerunDuplicatesEmptyUrl()
    ensures var b := Book("T", "", "Hot", "", "", "", Some("0"), Some("0"));
            && Untag(MergeAsRead([b], [b], StoredTitleUrl, FreshTitleUrl)) == [b, b]
            && SessionCrawler.UpdateCsv(Some([b]), [b]) == Some([b])
  {
    var b := Book("T", "", "Hot", "", "", "", Some("0"), Some("0"));
    var tagged := Tag([b], StoredTitleUrl) + Tag([b], FreshTitleUrl);
    assert tagged == [(b, (Text("T"), NaN)), (b, (Text("T"), Text("")))];
    DedupTwoRows(tagged[0], tagged[1], PairKey);
    assert [b] + [b] == [b, b];
    DedupTwoRows(b, b, TitleUrlKey);
  }

  /** main.py as written: a card without a title anchor is stored with an
      empty title; rerunning the update with the same scrape keeps it twice,
      where the model's merge keeps it once. */
  lemma StaticRerunDuplicatesEmptyTitle()
    ensures var b := Book("", "", "", "", "", "", None, None);
            && Untag(MergeAsRead([b], [b], StoredTitle, FreshTitle)) == [b, b]
            && StaticFetcher.UpdateCsv(Some([b]), [b]) == Some([b])
  {
    var b := Book("", "", "", "", "", "", None, None);
    var tagged := Tag([b], StoredTitle) + Tag([b], FreshTitle);
    assert tagged == [(b, NaN), (b, Text(""))];
    DedupTwoRows(tagged[0], tagged[1], PairKey);
    assert [b] + [b] == [b, b];
    DedupTwoRows(b, b, TitleKey);
  }
}
