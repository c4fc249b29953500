/** What the HTML parser hands the crawler, one datatype per kind of page.
    Each field is the result of one element lookup in crawler.py; `None`
    stands for a lookup that found nothing (a `find` that returned None, an
    attribute that `get` did not find). */
module Pages {

  datatype Option<+T> = None | Some(value: T)

  /** A `<tr>` of the title-data table: its whole text and the texts of its `<td>` cells. */
  datatype TitleRow = TitleRow(text: string, cells: seq<string>)

  /** The table whose summary is the title-data caption: the text of its first
      element with size "+2" (the title), and its rows in document order. */
  datatype TitleTable = TitleTable(heading: Option<string>, rows: seq<TitleRow>)

  /** An element with bgcolor "white" (a downloadable file row): the text of its first `<a>`. */
  datatype FileRow = FileRow(link: Option<string>)

  /** A book page: the title-data table, the text of the work-data table, the
      file rows in document order, and the text of the whole page. */
  datatype BookPage = BookPage(
    titleData: Option<TitleTable>,
    workData: Option<string>,
    fileRows: seq<FileRow>,
    text: string)

  /** An `<a>` element: its `href` attribute, if it has one. */
  datatype Anchor = Anchor(href: Option<string>)

  /** An `<li>` element: its first `<a>`, if it has one. */
  datatype ListItem = ListItem(anchor: Option<Anchor>)

  /** An author page: the text of its first element with size "+2" (the author's
      name), and the `<li>` items of its first `<ol>`, if it has one. */
  datatype AuthorPage = AuthorPage(heading: Option<string>, firstList: Option<seq<ListItem>>)

  /** A column page: the `<li>` items of each of its `<ol>` elements, in document order. */
  datatype ColumnPage = ColumnPage(lists: seq<seq<ListItem>>)
}
