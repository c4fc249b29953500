/** The two listing extractions: book URLs from an author page
    (`Crawler.get_book_pages`) and author-page URLs from a column page
    (`Crawler.get_author_pages`). */
module Listings {
  import opened Pages

  const SiteRoot: string := "http://www.aozora.gr.jp/"
  const AuthorIndexRoot: string := "http://www.aozora.gr.jp/index_pages/"

  /** Python's `s[n:]`: empty once `n` passes the end. */
  function DropPrefix(s: string, n: nat): (r: string)
    ensures |s| >= n ==> s == s[..n] + r
    ensures |s| <= n ==> r == ""
  {
    if |s| >= n then s[n..] else ""
  }

  // ------------------------------------------------------------- book pages

  /** The absolute URL of a book link: its first three characters give way to the site root. */
  function BookUrl(href: string): string
  {
    SiteRoot + DropPrefix(href, 3)
  }

  /** Every item has an `<a>` (without one, `find('a').get` fails). */
  ghost predicate AllAnchored(items: seq<ListItem>)
  {
    forall i :: 0 <= i < |items| ==> items[i].anchor.Some?
  }

  /** An item whose link is kept: its `href` is present and not empty. */
  predicate IsLinked(item: ListItem)
  {
    item.anchor.Some? && item.anchor.value.href.Some? && item.anchor.value.href.value != ""
  }

  function HrefOf(item: ListItem): string
    requires IsLinked(item)
  {
    item.anchor.value.href.value
  }

  /** The book URLs of the first `n` items, in item order, skipping unlinked items. */
  function BookUrlsUpTo(items: seq<ListItem>, n: nat): (urls: seq<string>)
    requires n <= |items| && AllAnchored(items)
    ensures |urls| <= n
  {
    if n == 0 then []
    else
      var prev := BookUrlsUpTo(items, n - 1);
      if IsLinked(items[n - 1]) then prev + [BookUrl(HrefOf(items[n - 1]))] else prev
  }

  /** The book URLs of an author's list. */
  function BookUrls(items: seq<ListItem>): seq<string>
    requires AllAnchored(items)
  {
    BookUrlsUpTo(items, |items|)
  }

  /** `idx` lists, in increasing order, exactly the positions of the linked
      items among the first `n`, and `urls[k]` is the book URL of the item at `idx[k]`. */
  ghost predicate SelectsLinked(items: seq<ListItem>, n: int, idx: seq<int>, urls: seq<string>)
  {
    && 0 <= n <= |items|
    && |idx| == |urls|
    && (forall k :: 0 <= k < |idx| ==>
          0 <= idx[k] < n && IsLinked(items[idx[k]]) && urls[k] == BookUrl(HrefOf(items[idx[k]])))
    && (forall k, l :: 0 <= k < l < |idx| ==> idx[k] < idx[l])
    && (forall i :: 0 <= i < n && IsLinked(items[i]) ==> i in idx)
  }

  /** A selection among the first `n` items extends to one among the first `n + 1`.
      (The body only names the extended selection and the cases of its index,
      to keep the solver's work small.) */
  lemma SelectsLinkedExtend(items: seq<ListItem>, n: nat, idx: seq<int>, urls: seq<string>)
    requires n < |items| && SelectsLinked(items, n, idx, urls)
    ensures if IsLinked(items[n]) then SelectsLinked(items, n + 1, idx + [n], urls + [BookUrl(HrefOf(items[n]))])
      else SelectsLinked(items, n + 1, idx, urls)
  {
    if IsLinked(items[n]) {
      var idx', urls' := idx + [n], urls + [BookUrl(HrefOf(items[n]))];
      forall k | 0 <= k < |idx'|
        ensures 0 <= idx'[k] < n + 1 && IsLinked(items[idx'[k]])
        ensures urls'[k] == BookUrl(HrefOf(items[idx'[k]]))
      {
        if k < |idx| { assert idx'[k] == idx[k] && urls'[k] == urls[k]; }
      }
      forall i | 0 <= i < n + 1 && IsLinked(items[i]) ensures i in idx' {
        if i < n { assert i in idx; }
      }
    }
  }

  /** The book URLs are the rewritten links of exactly the linked items, in document order. */
  lemma {:induction false} BookUrlsSelectLinked(items: seq<ListItem>, n: nat)
    requires n <= |items| && AllAnchored(items)
    ensures exists idx :: SelectsLinked(items, n, idx, BookUrlsUpTo(items, n))
  {
    if n == 0 {
      var none: seq<int> := [];
      assert SelectsLinked(items, 0, none, BookUrlsUpTo(items, 0));
    } else {
      BookUrlsSelectLinked(items, n - 1);
      var idx :| SelectsLinked(items, n - 1, idx, BookUrlsUpTo(items, n - 1));
      SelectsLinkedExtend(items, n - 1, idx, BookUrlsUpTo(items, n - 1));
      if IsLinked(items[n - 1]) {
        assert SelectsLinked(items, n, idx + [n - 1], BookUrlsUpTo(items, n));
      } else {
        assert SelectsLinked(items, n, idx, BookUrlsUpTo(items, n));
      }
    }
  }

  /** The positions of the linked items among the first `n`. */
  ghost function LinkedBefore(items: seq<ListItem>, n: nat): set<int>
    requires n <= |items|
  {
    set i | 0 <= i < n && IsLinked(items[i])
  }

  /** There are as many book URLs as items with a non-empty `href`. */
  lemma {:induction false} BookUrlsCount(items: seq<ListItem>, n: nat)
    requires n <= |items| && AllAnchored(items)
    ensures |BookUrlsUpTo(items, n)| == |LinkedBefore(items, n)|
  {
    if n > 0 {
      BookUrlsCount(items, n - 1);
      var before := LinkedBefore(items, n - 1);
      if IsLinked(items[n - 1]) {
        assert LinkedBefore(items, n) == before + {n - 1};
        assert n - 1 !in before;
      } else {
        assert LinkedBefore(items, n) == before;
      }
    }
  }

  /** What `get_book_pages` dereferences without checking: a size "+2" element,
      an `<ol>`, and an `<a>` in each of its items. */
  ghost predicate AuthorPageOk(page: AuthorPage)
  {
    page.heading.Some? && page.firstList.Some? && AllAnchored(page.firstList.value)
  }

  /** `get_book_pages` on a parsed author page: the author's name and book URLs. */
  method GetBookPages(page: AuthorPage) returns (author: string, bookUrls: seq<string>)
    requires AuthorPageOk(page)
    ensures author == page.heading.value
    ensures bookUrls == BookUrls(page.firstList.value)
  {
    author := page.heading.value;
    var bookList := page.firstList.value;
    bookUrls := [];
    var i := 0;
    while i < |bookList|
      invariant 0 <= i <= |bookList|
      invariant bookUrls == BookUrlsUpTo(bookList, i)
    {
      var url := bookList[i].anchor.value.href;
      if url.Some? && url.value != "" {
        bookUrls := bookUrls + [SiteRoot + DropPrefix(url.value, 3)];
      }
      i := i + 1;
    }
  }

  // ----------------------------------------------------------- column pages

  /** The absolute URL of an author link. */
  function AuthorLink(href: string): string
  {
    AuthorIndexRoot + href
  }

  /** Every item has an `<a>` with an `href` (otherwise the concatenation fails). */
  ghost predicate AllHrefs(items: seq<ListItem>)
  {
    forall i :: 0 <= i < |items| ==> items[i].anchor.Some? && items[i].anchor.value.href.Some?
  }

  ghost predicate ColumnPageOk(page: ColumnPage)
  {
    forall i :: 0 <= i < |page.lists| ==> AllHrefs(page.lists[i])
  }

  /** The author links of one `<ol>`: one per item, in order. */
  function ListLinks(items: seq<ListItem>): (links: seq<string>)
    requires AllHrefs(items)
    ensures |links| == |items|
    ensures forall j :: 0 <= j < |items| ==> links[j] == AuthorLink(items[j].anchor.value.href.value)
  {
    if items == [] then []
    else ListLinks(items[..|items| - 1]) + [AuthorLink(items[|items| - 1].anchor.value.href.value)]
  }

  /** The number of items across all lists. */
  function ItemCount(lists: seq<seq<ListItem>>): nat
  {
    if lists == [] then 0 else ItemCount(lists[..|lists| - 1]) + |lists[|lists| - 1]|
  }

  /** The author links of a column page: the links of each list, list after list. */
  function AuthorLinks(lists: seq<seq<ListItem>>): (links: seq<string>)
    requires forall i :: 0 <= i < |lists| ==> AllHrefs(lists[i])
    ensures |links| == ItemCount(lists)
  {
    if lists == [] then []
    else AuthorLinks(lists[..|lists| - 1]) + ListLinks(lists[|lists| - 1])
  }

  /** Item `j` of list `i` gives the author link at position (items in the
      lists before `i`) + `j`: one link per item, in document order,
      duplicates kept. */
  lemma {:induction false} AuthorLinkAt(lists: seq<seq<ListItem>>, i: nat, j: nat)
    requires forall l :: 0 <= l < |lists| ==> AllHrefs(lists[l])
    requires i < |lists| && j < |lists[i]|
    ensures ItemCount(lists[..i]) + j < |AuthorLinks(lists)|
    ensures AuthorLinks(lists)[ItemCount(lists[..i]) + j] == AuthorLink(lists[i][j].anchor.value.href.value)
  {
    var n := |lists| - 1;
    var prefix := lists[..n];
    if i < n {
      assert prefix[..i] == lists[..i];
      AuthorLinkAt(prefix, i, j);
    } else {
      assert lists[..i] == prefix;
    }
  }

  /** `get_author_pages` on a parsed column page. */
  method GetAuthorPages(page: ColumnPage) returns (authorLinks: seq<string>)
    requires ColumnPageOk(page)
    ensures authorLinks == AuthorLinks(page.lists)
  {
    authorLinks := [];
    var i := 0;
    while i < |page.lists|
      invariant 0 <= i <= |page.lists|
      invariant authorLinks == AuthorLinks(page.lists[..i])
    {
      var soundOl := page.lists[i];
      var j := 0;
      while j < |soundOl|
        invariant 0 <= j <= |soundOl|
        invariant authorLinks == AuthorLinks(page.lists[..i]) + ListLinks(soundOl[..j])
      {
        authorLinks := authorLinks + [AuthorIndexRoot + soundOl[j].anchor.value.href.value];
        assert soundOl[..j + 1][..j] == soundOl[..j];
        j := j + 1;
      }
      assert soundOl[..j] == soundOl;
      assert page.lists[..i + 1][..i] == page.lists[..i];
      i := i + 1;
    }
    assert page.lists[..i] == page.lists;
  }
}
