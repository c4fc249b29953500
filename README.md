# Aozora Bunko crawler, modelled in Dafny

This project models the scraping rules of `crawler.py`, a crawler for the Aozora
Bunko digital library. The crawler walks three kinds of page:

- **Column page.** One per kana column ("a", "ka", … "wa"). It lists author
  pages in `<ol>`/`<li>` items.
- **Author page.** It gives the author's name and lists the author's books.
- **Book page.** It gives the title data, the work data and the downloadable
  files.

For every book it builds a record with these keys:

- `title`;
- `subtitle`;
- `kana_usage`, one of 新字新仮名, 新字旧仮名 or 旧字旧仮名;
- `copyright`, true when the page says ＊著作権存続＊;
- the last `.html` and `.zip` file URLs, as `html_file` and `zip_file`.

The records are collected in a dictionary from author name to the author's
list of records.

Modules:

- `Text`: the Python string primitives the rules use.
  - `sub in s`, as `Contains`.
  - `str.rfind` and `s.rsplit('/', 1)[0]`, as `RFind` and `BeforeLastSlash`.
  - `os.path.splitext(p)[1]` on POSIX paths, as `Ext`.
  - Each comes with lemmas that say what it computes.
- `Pages`: what the HTML parser hands the crawler, one datatype per kind of
  page. A lookup that finds nothing is `None`.
- `Books`: `get_book_detail`.
  - Pure specification functions: `Subtitle`, `KanaUsage`, `IsCopyrighted`,
    `FileUrls`, `AddFileKeys` and `BookDetail`.
  - The source's loops, as methods proved equal to those functions:
    `FindSubtitle`, `CollectFileUrls`, `PutFileKeys` and `GetBookDetail`.
  - The record is a datatype with two `Option` fields. `html_file` and
    `zip_file` are present exactly when their field is `Some`.
- `Listings`: `get_book_pages` and `get_author_pages`, as loop methods proved
  equal to `BookUrls` and `AuthorLinks`.
- `Crawling`: `crawl`.
  - A `Site` maps each URL to its parsed page and stands in for the network.
  - `Crawl` runs the source's nested loops over a given column list.
  - `CrawlAsRun` runs it over `["wa"]`, the list left after the second
    assignment to `column_names`.

The source crashes when a lookup returns `None`, an index is out of range, or a
string is concatenated with `None`. The model turns each such crash into a
precondition: `BookPageOk`, `AuthorPageOk`, `ColumnPageOk` and `Crawlable`.

Three details of the code that the model keeps:

- An `<li>` with no `<a>` is not skipped: `book.find('a').get('href')` fails
  (crawler.py:79), so `AuthorPageOk` requires an anchor in every item.
- `if url:` (crawler.py:80) also skips a missing or empty `href`;
  `BookUrlsCount` counts the items with a non-empty `href`.
- The subtitle marker is searched in the whole row's text (crawler.py:32), as
  in `IsSubtitleRow`.

## Model

| member | source | states |
|---|---|---|
| Text.ContainsMeaning | crawler.py:35-37 | `Contains(s, sub)` holds exactly when `sub` occurs at some index of `s` (Python's `in` on strings) |
| Text.RFindBeforeMeaning | crawler.py:45 | the index found holds the searched character and no later index before the bound does; -1 means there is none |
| Text.BeforeLastSlashMeaning | crawler.py:45 | `rsplit('/', 1)[0]`: the whole string when it has no slash; otherwise the prefix ending just before a slash that is followed by no other slash |
| Text.ExtSound | crawler.py:60 | a non-empty result of `Ext` is the path's extension: a suffix that starts with a dot, has no other dot or slash, and follows a last path component that is not only dots |
| Text.ExtComplete | crawler.py:60 | a path that has an extension in that sense gets exactly it from `Ext`, so `Ext` yields "" only for paths without one |
| Books.SubtitleWithoutMatch | crawler.py:30-33 | with no row whose text contains 副題：, the subtitle is "" |
| Books.SubtitleOfLastMatch | crawler.py:30-33 | otherwise the subtitle is the last cell of the last matching row; later matching rows win |
| Books.FindSubtitle | crawler.py:30-33 | the subtitle loop returns the subtitle of all the rows |
| Books.KanaUsagePrecedence | crawler.py:35-40 | the category is one of the three; it is 新字新仮名 exactly when that marker occurs, 新字旧仮名 exactly when only that marker occurs, and 旧字旧仮名 exactly when neither occurs |
| Books.CopyrightMeaning | crawler.py:48-51 | the copyright flag is true exactly when ＊著作権存続＊ occurs in the page text |
| Books.FileUrlsInOrder | crawler.py:42-46 | one file URL per file row, in document order; entry `i` is the book URL before its last slash, then `/files/`, then row `i`'s anchor text |
| Books.CollectFileUrls | crawler.py:42-46 | the file-URL loop returns the file URLs of all rows |
| Books.FileKeyPresence | crawler.py:59-64 | after the key loop, the `.html` (or `.zip`) key is present exactly when it was present before or some URL has that extension; with no such URL it keeps its value |
| Books.FileKeyLastWins | crawler.py:59-64 | the `.html` (or `.zip`) key holds the last URL with that extension |
| Books.FileKeysKeepOthers | crawler.py:59-64 | the key loop changes nothing but `html_file` and `zip_file` |
| Books.PutFileKeys | crawler.py:59-64 | the in-place key loop gives the record that the key loop specifies |
| Books.BookDetailFields | crawler.py:53-64 | the record holds the page's title, subtitle, kana usage and copyright flag; `html_file` is present exactly when some file URL has extension `.html` and holds the last such URL; the same holds for `zip_file` and `.zip` |
| Books.GetBookDetail | crawler.py:17-66 | `get_book_detail` on a page with the elements it dereferences returns `BookDetail` of that page |
| Listings.DropPrefix | crawler.py:81 | Python's `s[n:]`: what follows the first `n` characters, or "" when `s` is shorter |
| Listings.BookUrlsUpTo | crawler.py:78-81 | there are never more book URLs than items |
| Listings.BookUrlsSelectLinked | crawler.py:75-81 | the book URLs are the site root plus `href[3:]` of exactly the items with a non-empty `href`, in document order |
| Listings.BookUrlsCount | crawler.py:78-81 | there are as many book URLs as items with a non-empty `href` |
| Listings.GetBookPages | crawler.py:68-83 | `get_book_pages` returns the name from the page heading and `BookUrls` of the first list |
| Listings.ListLinks | crawler.py:95-96 | one author link per item of a list, in order: the author-index root plus the item's `href` |
| Listings.AuthorLinks | crawler.py:91-96 | as many author links as items across all lists |
| Listings.AuthorLinkAt | crawler.py:94-96 | item `j` of list `i` gives the link at position (items in earlier lists) + `j`: document order, duplicates kept |
| Listings.GetAuthorPages | crawler.py:85-98 | the nested loops of `get_author_pages` return `AuthorLinks` of the page's lists |
| Crawling.BookRecordsInOrder | crawler.py:120-124 | an author's records are the book records of the author's book URLs, one for one, in order |
| Crawling.AccumulateKeys | crawler.py:114-117 | after a run of author visits, a name is a key exactly when it was one before or some visited author has it; names no visit uses keep their value |
| Crawling.AccumulateLastWins | crawler.py:116-117 | a visited name holds the records of the last author visited under that name: `res[name] = []` overwrites and does not merge |
| Crawling.AccumulateAppend | crawler.py:112-117 | visiting one run of authors and then another is the same as visiting their concatenation |
| Crawling.CrawlVisitsInOrder | crawler.py:112-118 | crawling column after column is one run of visits over all listed authors, column by column, in page order |
| Crawling.CrawlResultMeaning | crawler.py:110-124 | the result's keys are exactly the names of the visited authors, and each holds the records of the last author visited under that name |
| Crawling.CrawlAuthor | crawler.py:115-124 | one author's turn sets the author's name to the author's records, built by appending one record per book URL |
| Crawling.Crawl | crawler.py:104-130 | the nested loops of `crawl` over a column list return `CrawlOf` for those columns |
| Crawling.CrawlAsRun | crawler.py:107-109 | `crawl` as written crawls only the column "wa" |

## Left out

- Fetching pages over HTTP (`requests.get`): a `Site` value holds the parsed page for every URL the crawl reaches.
- Re-encoding text between ISO-8859-1 and UTF-8, including the byte-string title and author name: all text is already-decoded `string`.
- BeautifulSoup's element lookups by `summary`, `size`, `bgcolor`, `ol`, `li`, `tr`, `td` and `a`: their results are the fields of the `Pages` datatypes. A crash on a missing element is a precondition, not an error value, because the source has no error handling.
- `wait`, `time.time` and `time.sleep`, and the `waiting_time` setting: these are wall-clock timing with no effect on the result.
- The `print` progress lines, the command-line parsing, `json.dumps` and writing the output file: these are console and file I/O.
- Key order in the result dictionaries, which only shows in the JSON text: the book record is a datatype with fixed fields, and the crawl result is a Dafny `map`.
