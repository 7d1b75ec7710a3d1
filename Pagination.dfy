/** The scraper's main run for the current layout: fetch the first result page, read the page
    count from it, extract its rows, then fetch and extract pages 2 .. `pages` in order, appending
    each page's rows to the table. Fetching is a parameter: `fetch` maps a request suffix to the
    result page that the site serves for it. */
module Pagination {
  import opened Markup
  import opened Scraper

  /** The request suffix of the result page that follows `k` full pages of a search. */
  function PageKey(search: string, k: nat): string {
    if k == 0 then RequestSuffix(search) else RequestSuffix(PageSubject(search, k))
  }

  /** The first `n` result pages of a search, in page order: page `k + 1` is the page served for
      `PageKey(search, k)`. */
  function PagesFetched(search: string, fetch: string -> Document, n: nat): (docs: seq<Document>) {
    seq(n, k requires 0 <= k => fetch(PageKey(search, k)))
  }

  /** How many pages a run scrapes when asked for `pages`: the first page always, and all of
      them when more than one is asked for. */
  function PagesScraped(pages: int): (n: nat)
    ensures n >= 1
    ensures pages >= 1 ==> n == pages
    ensures pages < 1 ==> n == 1
  {
    if pages > 1 then pages else 1
  }

  /** Every listing on every page can be read without raising. */
  predicate AllPagesExtractable(docs: seq<Document>) {
    forall k :: 0 <= k < |docs| ==> AllExtractable(docs[k].items)
  }

  /** The pieces of `pages` one after the other. */
  function Concat<T>(pages: seq<seq<T>>): seq<T> {
    if pages == [] then [] else Concat(pages[..|pages| - 1]) + pages[|pages| - 1]
  }

  /** Concatenating a prefix of the pieces gives a prefix of the whole. */
  lemma {:induction false} ConcatPrefix<T>(pages: seq<seq<T>>, m: nat)
    requires m <= |pages|
    ensures |Concat(pages[..m])| <= |Concat(pages)|
    ensures Concat(pages)[..|Concat(pages[..m])|] == Concat(pages[..m])
  {
    if m < |pages| {
      var init := pages[..|pages| - 1];
      assert init[..m] == pages[..m];
      ConcatPrefix(init, m);
      var t := Concat(init);
      var u := Concat(pages[..m]);
      assert Concat(pages)[..|t|] == t;
      assert t[..|u|] == u;
    } else {
      assert pages[..m] == pages;
    }
  }

  /** Element `i` of piece `k` sits right after the first `k` pieces. */
  lemma ConcatAt<T>(pages: seq<seq<T>>, k: nat, i: nat)
    requires k < |pages| && i < |pages[k]|
    ensures |Concat(pages[..k])| + i < |Concat(pages)|
    ensures Concat(pages)[|Concat(pages[..k])| + i] == pages[k][i]
  {
    var upTo := pages[..k + 1];
    ConcatPrefix(pages, k + 1);
    assert upTo[..|upTo| - 1] == pages[..k];
    assert Concat(upTo) == Concat(pages[..k]) + pages[k];
  }

  /** The rows of each page, page by page. */
  function PageTables(docs: seq<Document>): (pages: seq<seq<Row>>)
    requires AllPagesExtractable(docs)
    ensures |pages| == |docs|
  {
    seq(|docs|, k requires 0 <= k < |docs| => PageRows(docs[k].items))
  }

  /** Fewer pages, fewer page tables: the tables of a prefix of the pages are a prefix. */
  lemma PageTablesPrefix(docs: seq<Document>, m: nat)
    requires m <= |docs| && AllPagesExtractable(docs)
    ensures AllPagesExtractable(docs[..m])
    ensures PageTables(docs[..m]) == PageTables(docs)[..m]
  {
    assert forall k :: 0 <= k < m ==> docs[..m][k] == docs[k];
  }

  /** The table built from `docs`: the rows of the first page, then of the second, and so on. */
  function Table(docs: seq<Document>): seq<Row>
    requires AllPagesExtractable(docs)
  {
    Concat(PageTables(docs))
  }

  /** The last page's rows close the table. */
  lemma TableLast(docs: seq<Document>)
    requires docs != [] && AllPagesExtractable(docs)
    ensures AllPagesExtractable(docs[..|docs| - 1])
    ensures Table(docs) == Table(docs[..|docs| - 1]) + PageRows(docs[|docs| - 1].items)
  {
    PageTablesPrefix(docs, |docs| - 1);
  }

  /** The number of listings on the pages `docs`. */
  function ListingCount(docs: seq<Document>): nat {
    if docs == [] then 0 else ListingCount(docs[..|docs| - 1]) + |docs[|docs| - 1].items|
  }

  /** The table holds one row per listing. */
  lemma {:induction false} TableSize(docs: seq<Document>)
    requires AllPagesExtractable(docs)
    ensures |Table(docs)| == ListingCount(docs)
  {
    if docs != [] {
      TableLast(docs);
      TableSize(docs[..|docs| - 1]);
    }
  }

  /** Scraping more pages only appends: the table of a prefix of the pages is a prefix of the table. */
  lemma TablePrefix(docs: seq<Document>, m: nat)
    requires m <= |docs| && AllPagesExtractable(docs)
    ensures AllPagesExtractable(docs[..m])
    ensures |Table(docs[..m])| <= |Table(docs)|
    ensures Table(docs)[..|Table(docs[..m])|] == Table(docs[..m])
  {
    PageTablesPrefix(docs, m);
    ConcatPrefix(PageTables(docs), m);
  }

  /** The rows of the first `k` pages are the first `k` page tables, one row per listing. */
  lemma TableBefore(docs: seq<Document>, k: nat)
    requires k <= |docs| && AllPagesExtractable(docs)
    ensures AllPagesExtractable(docs[..k])
    ensures Table(docs[..k]) == Concat(PageTables(docs)[..k])
    ensures |Table(docs[..k])| == ListingCount(docs[..k])
  {
    PageTablesPrefix(docs, k);
    TableSize(docs[..k]);
  }

  /** Row `i` of page `k + 1` follows the rows of the `k` pages before it (one per listing, by
      `TableBefore`); by `PageRowsAt` it is the row extracted from listing `i` of that page. */
  lemma TableRow(docs: seq<Document>, k: nat, i: nat)
    requires AllPagesExtractable(docs)
    requires k < |docs| && i < |docs[k].items|
    ensures |Table(docs[..k])| + i < |Table(docs)|
    ensures Table(docs)[|Table(docs[..k])| + i] == PageRows(docs[k].items)[i]
  {
    TableBefore(docs, k);
    var pages := PageTables(docs);
    assert pages[k] == PageRows(docs[k].items);
    ConcatAt(pages, k, i);
    assert Table(docs) == Concat(pages);
    assert Concat(pages)[|Concat(pages[..k])| + i] == pages[k][i];
  }

  /** Fetching fewer pages fetches a prefix of the pages, so they stay readable. */
  lemma FetchedPrefix(search: string, fetch: string -> Document, m: nat, n: nat)
    requires n <= m && AllPagesExtractable(PagesFetched(search, fetch, m))
    ensures PagesFetched(search, fetch, m)[..n] == PagesFetched(search, fetch, n)
    ensures AllPagesExtractable(PagesFetched(search, fetch, n))
  {
    var docs := PagesFetched(search, fetch, m);
    assert docs[..n] == PagesFetched(search, fetch, n);
    PageTablesPrefix(docs, n);
  }

  /** One more page appends that page's rows. */
  lemma TableSnoc(search: string, fetch: string -> Document, n: nat)
    requires AllPagesExtractable(PagesFetched(search, fetch, n + 1))
    ensures AllPagesExtractable(PagesFetched(search, fetch, n))
    ensures AllExtractable(fetch(PageKey(search, n)).items)
    ensures Table(PagesFetched(search, fetch, n + 1)) ==
      Table(PagesFetched(search, fetch, n)) + PageRows(fetch(PageKey(search, n)).items)
  {
    var docs := PagesFetched(search, fetch, n + 1);
    assert |docs| - 1 == n;
    TableLast(docs);
    var last := fetch(PageKey(search, n));
    assert docs[n] == last;
    assert docs[..n] == PagesFetched(search, fetch, n);
    assert Table(docs) == Table(docs[..n]) + PageRows(last.items);
  }

  /** No pages, no rows. */
  lemma TableOfNone(search: string, fetch: string -> Document)
    ensures AllPagesExtractable(PagesFetched(search, fetch, 0))
    ensures Table(PagesFetched(search, fetch, 0)) == []
  {
    assert PageTables(PagesFetched(search, fetch, 0)) == [];
  }

  /** Before the loop: page 1, requested for the bare search, is readable and its rows form the
      table of one page. */
  lemma ScrapeStart(search: string, fetch: string -> Document, n: nat)
    requires 1 <= n && AllPagesExtractable(PagesFetched(search, fetch, n))
    ensures AllExtractable(fetch(RequestSuffix(search)).items)
    ensures AllPagesExtractable(PagesFetched(search, fetch, 1))
    ensures Table(PagesFetched(search, fetch, 1)) == PageRows(fetch(RequestSuffix(search)).items)
  {
    FetchedPrefix(search, fetch, n, 1);
    TableSnoc(search, fetch, 0);
    TableOfNone(search, fetch);
  }

  /** One turn of the loop: page `pageNum + 1`, requested with the paging subject, is readable and
      its rows extend the table. */
  lemma ScrapeStep(search: string, fetch: string -> Document, n: nat, pageNum: nat)
    requires 1 <= pageNum < n && AllPagesExtractable(PagesFetched(search, fetch, n))
    ensures AllExtractable(fetch(RequestSuffix(PageSubject(search, pageNum))).items)
    ensures AllPagesExtractable(PagesFetched(search, fetch, pageNum))
    ensures AllPagesExtractable(PagesFetched(search, fetch, pageNum + 1))
    ensures Table(PagesFetched(search, fetch, pageNum + 1)) ==
      Table(PagesFetched(search, fetch, pageNum)) + PageRows(fetch(RequestSuffix(PageSubject(search, pageNum))).items)
  {
    FetchedPrefix(search, fetch, n, pageNum + 1);
    TableSnoc(search, fetch, pageNum);
  }

  /** The main run. The page count is read from the first page; the number of pages asked for
      is at most that count (the prompt repeats until it is). Page `p` for `p >= 2` is requested
      with the subject `search_Desde_<(p - 1) * 50 + 1>_DisplayType_LF`. */
  method Scrape(search: string, fetch: string -> Document, pages: int)
    returns (maximumPages: int, table: seq<Row>)
    requires fetch(RequestSuffix(search)).quantityResults.Some?
    requires CounterReadable(fetch(RequestSuffix(search)).quantityResults.value)
    requires pages <= NumberOfPages(fetch(RequestSuffix(search)).quantityResults.value)
    requires AllPagesExtractable(PagesFetched(search, fetch, PagesScraped(pages)))
    ensures maximumPages == NumberOfPages(fetch(RequestSuffix(search)).quantityResults.value)
    ensures PagesScraped(pages) <= MaxPages
    ensures table == Table(PagesFetched(search, fetch, PagesScraped(pages)))
  {
    var html := fetch(RequestSuffix(search));
    maximumPages := NumberOfPages(html.quantityResults.value);
    ScrapeStart(search, fetch, PagesScraped(pages));
    table := ContentSearch(html);
    if pages > 1 {
      for pageNum := 1 to pages
        invariant AllPagesExtractable(PagesFetched(search, fetch, pageNum))
        invariant table == Table(PagesFetched(search, fetch, pageNum))
      {
        ScrapeStep(search, fetch, pages, pageNum);
        html := fetch(RequestSuffix(PageSubject(search, pageNum)));
        var rows := ContentSearch(html);
        table := table + rows;
      }
    }
  }
}
