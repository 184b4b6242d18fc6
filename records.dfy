/** The entities shared by both scrapers: the parsed listing card they read
    and the catalog row they produce. */
module Records {
  import opened Wrappers

  /** The `.product-title a` anchor of a listing card, after parsing: its
      stripped text and its `href` attribute when it has one. */
  datatype Anchor = Anchor(text: string, href: Option<string>)

  /** One `.product-small` listing card, after parsing. Every sub-element is
      `None` when the card does not contain it and otherwise holds its
      already stripped text. */
  datatype Item = Item(
    titleAnchor: Option<Anchor>,
    views: Option<string>,      // `.tdk-product-loop-custom-product-meta .last-updated-date span`
    downloads: Option<string>,  // `.tdk-product-loop-custom-product-meta .version`
    category: Option<string>)   // `.category`

  /** One row of the catalog table. `views` and `downloads` are `None` when
      the row has no such column (the plain HTTP scraper does not emit them). */
  datatype Book = Book(
    title: string,
    author: string,
    genre: string,
    status: string,
    url: string,
    filePath: string,
    views: Option<string>,
    downloads: Option<string>)

  /** The deduplication key of the browser-driven scraper: `(title, url)`. */
  function TitleUrlKey(b: Book): (string, string)
  {
    (b.title, b.url)
  }

  /** The deduplication key of the plain HTTP scraper: `title` alone. */
  function TitleKey(b: Book): string
  {
    b.title
  }
}
