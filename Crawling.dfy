/** The crawl (`Crawler.crawl`): columns, then the authors each column page
    lists, then the books each author page lists, accumulated in one
    dictionary keyed by author name. Fetching is a lookup in `Site`, which
    holds the parsed page found at each URL. */
module Crawling {
  import opened Pages
  import opened Listings
  import opened Books

  const ColumnUrlPrefix: string := "http://www.aozora.gr.jp/index_pages/person_"

  /** The columns a run actually crawls. The crawler first lists all ten
      columns ("a", "ka", "sa", "ta", "na", "ha", "ma", "ya", "ra", "wa"), then
      a second assignment replaces that list with this one. */
  const RunColumns: seq<string> := ["wa"]

  /** `'http://www.aozora.gr.jp/index_pages/person_{}.html'.format(col)` */
  function ColumnUrl(col: string): string
  {
    ColumnUrlPrefix + col + ".html"
  }

  /** The parsed page behind every URL the crawl may fetch. */
  datatype Site = Site(
    columnPages: map<string, ColumnPage>,
    authorPages: map<string, AuthorPage>,
    bookPages: map<string, BookPage>)

  /** The crawl's result: author name to the records of that author's books. */
  type CrawlResult = map<string, seq<Record>>

  // ------------------------------------------------------ what must be fetchable

  ghost predicate BooksFetchable(site: Site, urls: seq<string>)
  {
    forall k :: 0 <= k < |urls| ==> urls[k] in site.bookPages && BookPageOk(site.bookPages[urls[k]])
  }

  ghost predicate AuthorFetchable(site: Site, url: string)
  {
    url in site.authorPages && AuthorPageOk(site.authorPages[url])
    && BooksFetchable(site, BookUrls(site.authorPages[url].firstList.value))
  }

  ghost predicate AuthorsFetchable(site: Site, urls: seq<string>)
  {
    forall i :: 0 <= i < |urls| ==> AuthorFetchable(site, urls[i])
  }

  ghost predicate ColumnFetchable(site: Site, col: string)
  {
    ColumnUrl(col) in site.columnPages && ColumnPageOk(site.columnPages[ColumnUrl(col)])
    && AuthorsFetchable(site, AuthorLinks(site.columnPages[ColumnUrl(col)].lists))
  }

  /** Every page the crawl of `columns` reaches is present and has the elements
      the extraction steps dereference. */
  ghost predicate Crawlable(site: Site, columns: seq<string>)
  {
    forall i :: 0 <= i < |columns| ==> ColumnFetchable(site, columns[i])
  }

  // ------------------------------------------------------------ specification

  function ColumnAuthors(site: Site, col: string): seq<string>
    requires ColumnFetchable(site, col)
  {
    AuthorLinks(site.columnPages[ColumnUrl(col)].lists)
  }

  /** The author URLs listed by the first `c` columns, column after column, in page order. */
  function VisitedUpTo(site: Site, columns: seq<string>, c: nat): (authors: seq<string>)
    requires c <= |columns| && Crawlable(site, columns)
    ensures AuthorsFetchable(site, authors)
  {
    if c == 0 then []
    else VisitedUpTo(site, columns, c - 1) + ColumnAuthors(site, columns[c - 1])
  }

  /** The author URLs the crawl of `columns` visits, in order, duplicates kept. */
  function VisitedAuthors(site: Site, columns: seq<string>): seq<string>
    requires Crawlable(site, columns)
  {
    VisitedUpTo(site, columns, |columns|)
  }

  function AuthorName(site: Site, url: string): string
    requires AuthorFetchable(site, url)
  {
    site.authorPages[url].heading.value
  }

  /** The records of the first `n` books at `urls`, one per URL, in order. */
  function BookRecordsUpTo(site: Site, urls: seq<string>, n: nat): seq<Record>
    requires n <= |urls| && BooksFetchable(site, urls)
  {
    if n == 0 then []
    else BookRecordsUpTo(site, urls, n - 1) + [BookDetail(urls[n - 1], site.bookPages[urls[n - 1]])]
  }

  /** An author's records follow the author's book URLs one for one, in order. */
  lemma {:induction false} BookRecordsInOrder(site: Site, urls: seq<string>, n: nat)
    requires n <= |urls| && BooksFetchable(site, urls)
    ensures |BookRecordsUpTo(site, urls, n)| == n
    ensures forall k :: 0 <= k < n ==>
              BookRecordsUpTo(site, urls, n)[k] == BookDetail(urls[k], site.bookPages[urls[k]])
  {
    if n > 0 {
      BookRecordsInOrder(site, urls, n - 1);
      var prev := BookRecordsUpTo(site, urls, n - 1);
      var last := BookDetail(urls[n - 1], site.bookPages[urls[n - 1]]);
      assert BookRecordsUpTo(site, urls, n) == prev + [last];
    }
  }

  /** The records of every book an author page lists. */
  function AuthorRecords(site: Site, url: string): seq<Record>
    requires AuthorFetchable(site, url)
  {
    var urls := BookUrls(site.authorPages[url].firstList.value);
    BookRecordsUpTo(site, urls, |urls|)
  }

  /** The dictionary `res0` after visiting the first `n` of `authors` in order:
      each visit sets the author's name to that author's records. */
  function AccumulateFrom(site: Site, res0: CrawlResult, authors: seq<string>, n: nat): CrawlResult
    requires n <= |authors| && AuthorsFetchable(site, authors)
  {
    if n == 0 then res0
    else
      AccumulateFrom(site, res0, authors, n - 1)[AuthorName(site, authors[n - 1]) := AuthorRecords(site, authors[n - 1])]
  }

  /** The crawl's dictionary once the first `c` columns are done. */
  function CrawlUpTo(site: Site, columns: seq<string>, c: nat): CrawlResult
    requires c <= |columns| && Crawlable(site, columns)
  {
    if c == 0 then map[]
    else
      var authors := ColumnAuthors(site, columns[c - 1]);
      AccumulateFrom(site, CrawlUpTo(site, columns, c - 1), authors, |authors|)
  }

  /** The result of crawling `columns`. */
  function CrawlOf(site: Site, columns: seq<string>): CrawlResult
    requires Crawlable(site, columns)
  {
    CrawlUpTo(site, columns, |columns|)
  }

  // ---------------------------------------------------------------- properties

  /** Visit `i`, among the first `n`, is the last of them to an author of that name. */
  ghost predicate IsLastVisit(site: Site, authors: seq<string>, n: int, i: int)
    requires AuthorsFetchable(site, authors)
  {
    0 <= i < n <= |authors|
    && forall j :: i < j < n ==> AuthorName(site, authors[j]) != AuthorName(site, authors[i])
  }

  /** Some visit among the first `n` is to an author called `name`. */
  ghost predicate Visited(site: Site, authors: seq<string>, n: int, name: string)
    requires AuthorsFetchable(site, authors)
  {
    exists i :: 0 <= i < n <= |authors| && AuthorName(site, authors[i]) == name
  }

  /** After the visits, `name` is a key exactly when it was one before or some
      visit is to an author of that name; a name no visit uses keeps its value. */
  lemma {:induction false} AccumulateKeys(site: Site, res0: CrawlResult, authors: seq<string>, n: nat, name: string)
    requires n <= |authors| && AuthorsFetchable(site, authors)
    ensures var res := AccumulateFrom(site, res0, authors, n);
      && (name in res <==> name in res0 || Visited(site, authors, n, name))
      && (name in res0 && !Visited(site, authors, n, name) ==> res[name] == res0[name])
  {
    if n > 0 {
      AccumulateKeys(site, res0, authors, n - 1, name);
      if Visited(site, authors, n, name) && name != AuthorName(site, authors[n - 1]) {
        var i :| 0 <= i < n <= |authors| && AuthorName(site, authors[i]) == name;
        assert Visited(site, authors, n - 1, name);
      }
    }
  }

  /** The name of the last visit to an author of that name holds that author's
      records: a later author of the same name overwrites, it does not merge. */
  lemma {:induction false} AccumulateLastWins(site: Site, res0: CrawlResult, authors: seq<string>, n: nat, i: nat)
    requires n <= |authors| && AuthorsFetchable(site, authors)
    requires IsLastVisit(site, authors, n, i)
    ensures var res := AccumulateFrom(site, res0, authors, n);
      AuthorName(site, authors[i]) in res && res[AuthorName(site, authors[i])] == AuthorRecords(site, authors[i])
  {
    if i < n - 1 {
      assert IsLastVisit(site, authors, n - 1, i);
      AccumulateLastWins(site, res0, authors, n - 1, i);
    }
  }

  /** Visits depend only on the authors visited, not on what follows them. */
  lemma {:induction false} AccumulateSamePrefix(site: Site, res0: CrawlResult, xs: seq<string>, ys: seq<string>, n: nat)
    requires n <= |xs| && n <= |ys| && AuthorsFetchable(site, xs) && AuthorsFetchable(site, ys)
    requires forall i :: 0 <= i < n ==> xs[i] == ys[i]
    ensures AccumulateFrom(site, res0, xs, n) == AccumulateFrom(site, res0, ys, n)
  {
    if n > 0 {
      AccumulateSamePrefix(site, res0, xs, ys, n - 1);
    }
  }

  /** Authors fetchable one list after another are fetchable together. (The
      body only spells out the two halves of the index range, to keep the
      solver's work small.) */
  lemma FetchableAppend(site: Site, xs: seq<string>, ys: seq<string>)
    requires AuthorsFetchable(site, xs) && AuthorsFetchable(site, ys)
    ensures AuthorsFetchable(site, xs + ys)
  {
    forall i | 0 <= i < |xs + ys| ensures AuthorFetchable(site, (xs + ys)[i]) {
      if i < |xs| { assert (xs + ys)[i] == xs[i]; } else { assert (xs + ys)[i] == ys[i - |xs|]; }
    }
  }

  /** Visiting `xs` and then the first `m` of `ys` is visiting that much of `xs + ys`. */
  lemma {:induction false} AccumulateAppend(site: Site, res0: CrawlResult, xs: seq<string>, ys: seq<string>, m: nat)
    requires m <= |ys| && AuthorsFetchable(site, xs) && AuthorsFetchable(site, ys)
    requires AuthorsFetchable(site, xs + ys)
    ensures AccumulateFrom(site, AccumulateFrom(site, res0, xs, |xs|), ys, m)
            == AccumulateFrom(site, res0, xs + ys, |xs| + m)
  {
    if m == 0 {
      assert forall i :: 0 <= i < |xs| ==> (xs + ys)[i] == xs[i];
      AccumulateSamePrefix(site, res0, xs, xs + ys, |xs|);
    } else {
      AccumulateAppend(site, res0, xs, ys, m - 1);
      assert (xs + ys)[|xs| + m - 1] == ys[m - 1];
    }
  }

  /** Crawling column after column is one run of visits over all the authors
      the columns list, in order. */
  lemma {:induction false} CrawlVisitsInOrder(site: Site, columns: seq<string>, c: nat)
    requires c <= |columns| && Crawlable(site, columns)
    ensures CrawlUpTo(site, columns, c) == AccumulateFrom(site, map[], VisitedUpTo(site, columns, c), |VisitedUpTo(site, columns, c)|)
  {
    if c > 0 {
      CrawlVisitsInOrder(site, columns, c - 1);
      var before := VisitedUpTo(site, columns, c - 1);
      var authors := ColumnAuthors(site, columns[c - 1]);
      assert VisitedUpTo(site, columns, c) == before + authors;
      FetchableAppend(site, before, authors);
      AccumulateAppend(site, map[], before, authors, |authors|);
    }
  }

  /** The crawl's dictionary has exactly one key per distinct author name among
      the visited authors, and each holds the records of the last author visited
      under that name. */
  lemma CrawlResultMeaning(site: Site, columns: seq<string>)
    requires Crawlable(site, columns)
    ensures var authors := VisitedAuthors(site, columns);
      var res := CrawlOf(site, columns);
      && (forall name :: name in res <==> Visited(site, authors, |authors|, name))
      && (forall i :: IsLastVisit(site, authors, |authors|, i) ==>
            res[AuthorName(site, authors[i])] == AuthorRecords(site, authors[i]))
  {
    var authors := VisitedAuthors(site, columns);
    CrawlVisitsInOrder(site, columns, |columns|);
    forall name {
      AccumulateKeys(site, map[], authors, |authors|, name);
    }
    forall i | IsLastVisit(site, authors, |authors|, i) {
      AccumulateLastWins(site, map[], authors, |authors|, i);
    }
  }

  // ----------------------------------------------------------------- the crawl

  /** One author of the crawl: `res[name] = []`, then one append per book. */
  method CrawlAuthor(site: Site, url: string, res0: CrawlResult) returns (res: CrawlResult)
    requires AuthorFetchable(site, url)
    ensures res == res0[AuthorName(site, url) := AuthorRecords(site, url)]
  {
    var authorName, bookUrls := GetBookPages(site.authorPages[url]);
    res := res0[authorName := []];
    var b := 0;
    while b < |bookUrls|
      invariant 0 <= b <= |bookUrls|
      invariant res == res0[authorName := BookRecordsUpTo(site, bookUrls, b)]
    {
      var bookInfo := GetBookDetail(bookUrls[b], site.bookPages[bookUrls[b]]);
      res := res[authorName := res[authorName] + [bookInfo]];
      assert BookRecordsUpTo(site, bookUrls, b + 1) == BookRecordsUpTo(site, bookUrls, b) + [bookInfo];
      b := b + 1;
    }
  }

  /** `crawl` over the given columns: the nested loops of the source, filling
      one dictionary. */
  method Crawl(site: Site, columns: seq<string>) returns (res: CrawlResult)
    requires Crawlable(site, columns)
    ensures res == CrawlOf(site, columns)
  {
    res := map[];
    var c := 0;
    while c < |columns|
      invariant 0 <= c <= |columns|
      invariant res == CrawlUpTo(site, columns, c)
    {
      var colName := columns[c];
      var authors := GetAuthorPages(site.columnPages[ColumnUrl(colName)]);
      ghost var before := res;
      var a := 0;
      while a < |authors|
        invariant 0 <= a <= |authors|
        invariant res == AccumulateFrom(site, before, authors, a)
      {
        res := CrawlAuthor(site, authors[a], res);
        a := a + 1;
      }
      c := c + 1;
    }
  }

  /** `crawl` as the source runs it: over the one column left after the override. */
  method CrawlAsRun(site: Site) returns (res: CrawlResult)
    requires Crawlable(site, RunColumns)
    ensures res == CrawlOf(site, ["wa"])
  {
    res := Crawl(site, RunColumns);
  }
}
