/** Book-detail extraction (`Crawler.get_book_detail`): from a parsed book page
    to the record of its title, subtitle, kana usage, copyright status and
    download links. */
module Books {
  import opened Text
  import opened Pages

  const SubtitleMarker: string := "副題："
  const ShinjiShinkana: string := "新字新仮名"
  const ShinjiKyukana: string := "新字旧仮名"
  const KyujiKyukana: string := "旧字旧仮名"
  const CopyrightMarker: string := "＊著作権存続＊"

  const HtmlExt: string := ".html"
  const ZipExt: string := ".zip"

  /** The dictionary `get_book_detail` returns. Its keys "title", "subtitle",
      "kana_usage" and "copyright" are always present; "html_file" and
      "zip_file" are present exactly when the field holds `Some`. */
  datatype Record = Record(
    title: string,
    subtitle: string,
    kanaUsage: string,
    copyright: bool,
    htmlFile: Option<string>,
    zipFile: Option<string>)

  // ---------------------------------------------------------------- subtitle

  predicate IsSubtitleRow(row: TitleRow)
  {
    Contains(row.text, SubtitleMarker)
  }

  /** Every row that mentions the subtitle marker has a cell to take the subtitle from. */
  ghost predicate SubtitleRowsOk(rows: seq<TitleRow>)
  {
    forall i :: 0 <= i < |rows| && IsSubtitleRow(rows[i]) ==> rows[i].cells != []
  }

  /** Row `j` is the last of the first `n` rows that mentions the subtitle marker. */
  ghost predicate IsLastSubtitleRow(rows: seq<TitleRow>, n: int, j: int)
  {
    0 <= j < n <= |rows| && IsSubtitleRow(rows[j])
    && forall k :: j < k < n ==> !IsSubtitleRow(rows[k])
  }

  /** The subtitle as the source's loop leaves it after the first `n` rows: the
      last cell of a row mentioning the marker, later rows overwriting earlier ones. */
  function SubtitleUpTo(rows: seq<TitleRow>, n: nat): string
    requires n <= |rows| && SubtitleRowsOk(rows)
  {
    if n == 0 then ""
    else if IsSubtitleRow(rows[n - 1]) then rows[n - 1].cells[|rows[n - 1].cells| - 1]
    else SubtitleUpTo(rows, n - 1)
  }

  function Subtitle(rows: seq<TitleRow>): string
    requires SubtitleRowsOk(rows)
  {
    SubtitleUpTo(rows, |rows|)
  }

  /** With no row mentioning the marker, the subtitle is "". */
  lemma {:induction false} SubtitleWithoutMatch(rows: seq<TitleRow>, n: nat)
    requires n <= |rows| && SubtitleRowsOk(rows)
    requires forall i :: 0 <= i < n ==> !IsSubtitleRow(rows[i])
    ensures SubtitleUpTo(rows, n) == ""
  {
    if n > 0 {
      SubtitleWithoutMatch(rows, n - 1);
    }
  }

  /** Otherwise the subtitle is the last cell of the last row mentioning it:
      later matching rows win. */
  lemma {:induction false} SubtitleOfLastMatch(rows: seq<TitleRow>, n: nat, j: int)
    requires SubtitleRowsOk(rows) && IsLastSubtitleRow(rows, n, j)
    ensures SubtitleUpTo(rows, n) == rows[j].cells[|rows[j].cells| - 1]
  {
    if j < n - 1 {
      assert !IsSubtitleRow(rows[n - 1]);
      SubtitleOfLastMatch(rows, n - 1, j);
    }
  }

  // -------------------------------------------------------------- kana usage

  /** The kana-usage category of a work, by marker precedence. */
  function KanaUsage(workText: string): string
  {
    if Contains(workText, ShinjiShinkana) then ShinjiShinkana
    else if Contains(workText, ShinjiKyukana) then ShinjiKyukana
    else KyujiKyukana
  }

  /** The category is one of the three; it is "新字新仮名" when that marker
      occurs in the work data (whatever else does), else "新字旧仮名" when that
      one does, and "旧字旧仮名" only when neither does. */
  lemma KanaUsagePrecedence(workText: string)
    ensures var r := KanaUsage(workText);
      var shinkana := exists i :: OccursAt(workText, ShinjiShinkana, i);
      var kyukana := exists i :: OccursAt(workText, ShinjiKyukana, i);
      && (r == ShinjiShinkana || r == ShinjiKyukana || r == KyujiKyukana)
      && (r == ShinjiShinkana <==> shinkana)
      && (r == ShinjiKyukana <==> !shinkana && kyukana)
      && (r == KyujiKyukana <==> !shinkana && !kyukana)
  {
    ContainsMeaning(workText, ShinjiShinkana);
    ContainsMeaning(workText, ShinjiKyukana);
  }

  // --------------------------------------------------------------- copyright

  /** Whether the page says its copyright still subsists. */
  function IsCopyrighted(pageText: string): bool
  {
    Contains(pageText, CopyrightMarker)
  }

  /** The copyright flag is set exactly when the marker occurs somewhere in the page text. */
  lemma CopyrightMeaning(pageText: string)
    ensures IsCopyrighted(pageText) <==> exists i :: OccursAt(pageText, CopyrightMarker, i)
  {
    ContainsMeaning(pageText, CopyrightMarker);
  }

  // --------------------------------------------------------------- file URLs

  /** The download URL of file `name` listed on the book page at `bookUrl`. */
  function FileUrl(bookUrl: string, name: string): string
  {
    BeforeLastSlash(bookUrl) + "/files/" + name
  }

  ghost predicate FileRowsOk(rows: seq<FileRow>)
  {
    forall i :: 0 <= i < |rows| ==> rows[i].link.Some?
  }

  /** The file URLs of the first `n` file rows of a book page, in document order. */
  function FileUrlsUpTo(bookUrl: string, rows: seq<FileRow>, n: nat): seq<string>
    requires n <= |rows| && FileRowsOk(rows)
  {
    if n == 0 then []
    else FileUrlsUpTo(bookUrl, rows, n - 1) + [FileUrl(bookUrl, rows[n - 1].link.value)]
  }

  function FileUrls(bookUrl: string, rows: seq<FileRow>): seq<string>
    requires FileRowsOk(rows)
  {
    FileUrlsUpTo(bookUrl, rows, |rows|)
  }

  /** One file URL per file row, in document order. */
  lemma {:induction false} FileUrlsInOrder(bookUrl: string, rows: seq<FileRow>, n: nat)
    requires n <= |rows| && FileRowsOk(rows)
    ensures |FileUrlsUpTo(bookUrl, rows, n)| == n
    ensures forall i :: 0 <= i < n ==> FileUrlsUpTo(bookUrl, rows, n)[i] == FileUrl(bookUrl, rows[i].link.value)
  {
    if n > 0 {
      FileUrlsInOrder(bookUrl, rows, n - 1);
      var prev := FileUrlsUpTo(bookUrl, rows, n - 1);
      assert FileUrlsUpTo(bookUrl, rows, n) == prev + [FileUrl(bookUrl, rows[n - 1].link.value)];
    }
  }

  // ------------------------------------------------------------------ record

  /** One step of the file-key loop: an `.html` URL sets "html_file", a `.zip` URL
      sets "zip_file", any other URL leaves the record as it is. */
  function AddFileKey(res: Record, url: string): Record
  {
    var ext := Ext(url);
    if ext == HtmlExt then res.(htmlFile := Some(url))
    else if ext == ZipExt then res.(zipFile := Some(url))
    else res
  }

  /** The file-key loop run over the first `n` of `urls`, in order. */
  function AddFileKeys(res: Record, urls: seq<string>, n: nat): Record
    requires n <= |urls|
  {
    if n == 0 then res
    else AddFileKey(AddFileKeys(res, urls, n - 1), urls[n - 1])
  }

  /** The extensions that have a key of their own. */
  predicate IsFileExt(ext: string)
  {
    ext == HtmlExt || ext == ZipExt
  }

  /** The key (as a field of the record) that extension `ext` is stored under. */
  function FileKey(r: Record, ext: string): Option<string>
    requires IsFileExt(ext)
  {
    if ext == HtmlExt then r.htmlFile else r.zipFile
  }

  /** One of the first `n` URLs has extension `ext`. */
  ghost predicate HasExt(urls: seq<string>, n: int, ext: string)
  {
    exists i :: 0 <= i < n <= |urls| && Ext(urls[i]) == ext
  }

  /** `urls[i]` is the last of the first `n` URLs with extension `ext`. */
  ghost predicate IsLastWithExt(urls: seq<string>, n: int, i: int, ext: string)
  {
    0 <= i < n <= |urls| && Ext(urls[i]) == ext
    && forall j :: i < j < n ==> Ext(urls[j]) != ext
  }

  /** The file-key loop has the key of `ext` at the end exactly when it had it at
      the start or some URL has that extension; if none has, the key is untouched. */
  lemma {:induction false} FileKeyPresence(res: Record, urls: seq<string>, n: nat, ext: string)
    requires n <= |urls| && IsFileExt(ext)
    ensures var r := AddFileKeys(res, urls, n);
      && (FileKey(r, ext).Some? <==> FileKey(res, ext).Some? || HasExt(urls, n, ext))
      && (!HasExt(urls, n, ext) ==> FileKey(r, ext) == FileKey(res, ext))
  {
    if n > 0 {
      FileKeyPresence(res, urls, n - 1, ext);
      if HasExt(urls, n, ext) && Ext(urls[n - 1]) != ext {
        var i :| 0 <= i < n <= |urls| && Ext(urls[i]) == ext;
        assert HasExt(urls, n - 1, ext);
      }
    }
  }

  /** The file-key loop leaves the key of `ext` holding the last URL with that extension. */
  lemma {:induction false} FileKeyLastWins(res: Record, urls: seq<string>, n: nat, i: int, ext: string)
    requires IsFileExt(ext) && IsLastWithExt(urls, n, i, ext)
    ensures FileKey(AddFileKeys(res, urls, n), ext) == Some(urls[i])
  {
    if i < n - 1 {
      assert IsLastWithExt(urls, n - 1, i, ext);
      FileKeyLastWins(res, urls, n - 1, i, ext);
    }
  }

  /** The file-key loop changes no key but "html_file" and "zip_file". */
  lemma {:induction false} FileKeysKeepOthers(res: Record, urls: seq<string>, n: nat)
    requires n <= |urls|
    ensures var r := AddFileKeys(res, urls, n);
      r.(htmlFile := res.htmlFile, zipFile := res.zipFile) == res
  {
    if n > 0 {
      FileKeysKeepOthers(res, urls, n - 1);
    }
  }

  /** The elements `get_book_detail` dereferences without checking. */
  ghost predicate BookPageOk(page: BookPage)
  {
    && page.titleData.Some?
    && page.titleData.value.heading.Some?
    && SubtitleRowsOk(page.titleData.value.rows)
    && page.workData.Some?
    && FileRowsOk(page.fileRows)
  }

  /** The record before any file key is added. */
  function BaseRecord(page: BookPage): Record
    requires BookPageOk(page)
  {
    Record(
      page.titleData.value.heading.value,
      Subtitle(page.titleData.value.rows),
      KanaUsage(page.workData.value),
      IsCopyrighted(page.text),
      None, None)
  }

  /** The record `get_book_detail` returns for the page at `bookUrl`. */
  function BookDetail(bookUrl: string, page: BookPage): Record
    requires BookPageOk(page)
  {
    var urls := FileUrls(bookUrl, page.fileRows);
    AddFileKeys(BaseRecord(page), urls, |urls|)
  }

  /** The record holds the title, subtitle, kana usage and copyright flag of the
      page; it has "html_file" (resp. "zip_file") exactly when some file URL
      ends in `.html` (resp. `.zip`), and then holds the last such URL. */
  lemma BookDetailFields(bookUrl: string, page: BookPage)
    requires BookPageOk(page)
    ensures var r := BookDetail(bookUrl, page);
      var urls := FileUrls(bookUrl, page.fileRows);
      && r.title == page.titleData.value.heading.value
      && r.subtitle == Subtitle(page.titleData.value.rows)
      && r.kanaUsage == KanaUsage(page.workData.value)
      && r.copyright == IsCopyrighted(page.text)
      && (r.htmlFile.Some? <==> HasExt(urls, |urls|, HtmlExt))
      && (forall i :: IsLastWithExt(urls, |urls|, i, HtmlExt) ==> r.htmlFile == Some(urls[i]))
      && (r.zipFile.Some? <==> HasExt(urls, |urls|, ZipExt))
      && (forall i :: IsLastWithExt(urls, |urls|, i, ZipExt) ==> r.zipFile == Some(urls[i]))
  {
    var base := BaseRecord(page);
    var urls := FileUrls(bookUrl, page.fileRows);
    FileKeysKeepOthers(base, urls, |urls|);
    FileKeyPresence(base, urls, |urls|, HtmlExt);
    FileKeyPresence(base, urls, |urls|, ZipExt);
    forall i | IsLastWithExt(urls, |urls|, i, HtmlExt) {
      FileKeyLastWins(base, urls, |urls|, i, HtmlExt);
    }
    forall i | IsLastWithExt(urls, |urls|, i, ZipExt) {
      FileKeyLastWins(base, urls, |urls|, i, ZipExt);
    }
  }

  /** The subtitle loop of `get_book_detail`: later matching rows overwrite earlier ones. */
  method FindSubtitle(rows: seq<TitleRow>) returns (subtitle: string)
    requires SubtitleRowsOk(rows)
    ensures subtitle == Subtitle(rows)
  {
    subtitle := "";
    var i := 0;
    while i < |rows|
      invariant 0 <= i <= |rows|
      invariant subtitle == SubtitleUpTo(rows, i)
    {
      var tr := rows[i];
      if Contains(tr.text, SubtitleMarker) {
        subtitle := tr.cells[|tr.cells| - 1];
      }
      i := i + 1;
    }
  }

  /** The file-URL loop of `get_book_detail`. */
  method CollectFileUrls(bookUrl: string, rows: seq<FileRow>) returns (fileUrls: seq<string>)
    requires FileRowsOk(rows)
    ensures fileUrls == FileUrls(bookUrl, rows)
  {
    fileUrls := [];
    var f := 0;
    while f < |rows|
      invariant 0 <= f <= |rows|
      invariant fileUrls == FileUrlsUpTo(bookUrl, rows, f)
    {
      var fileName := rows[f].link.value;
      var fileUrl := BeforeLastSlash(bookUrl) + "/files/" + fileName;
      fileUrls := fileUrls + [fileUrl];
      f := f + 1;
    }
  }

  /** The file-key loop of `get_book_detail`, updating the record in place. */
  method PutFileKeys(base: Record, fileUrls: seq<string>) returns (res: Record)
    ensures res == AddFileKeys(base, fileUrls, |fileUrls|)
  {
    res := base;
    var u := 0;
    while u < |fileUrls|
      invariant 0 <= u <= |fileUrls|
      invariant res == AddFileKeys(base, fileUrls, u)
    {
      var ext := Ext(fileUrls[u]);
      if ext == HtmlExt {
        res := res.(htmlFile := Some(fileUrls[u]));
      } else if ext == ZipExt {
        res := res.(zipFile := Some(fileUrls[u]));
      }
      u := u + 1;
    }
  }

  /** `get_book_detail` on a parsed page: title, subtitle, kana usage, file URLs,
      copyright flag, then the file keys, in the source's order. */
  method GetBookDetail(bookUrl: string, page: BookPage) returns (res: Record)
    requires BookPageOk(page)
    ensures res == BookDetail(bookUrl, page)
  {
    var titleData := page.titleData.value;
    var title := titleData.heading.value;
    var subtitle := FindSubtitle(titleData.rows);

    var kanaUsage;
    if Contains(page.workData.value, ShinjiShinkana) {
      kanaUsage := ShinjiShinkana;
    } else if Contains(page.workData.value, ShinjiKyukana) {
      kanaUsage := ShinjiKyukana;
    } else {
      kanaUsage := KyujiKyukana;
    }

    var fileUrls := CollectFileUrls(bookUrl, page.fileRows);
    var copyright := Contains(page.text, CopyrightMarker);

    res := Record(title, subtitle, kanaUsage, copyright, None, None);
    res := PutFileKeys(res, fileUrls);
  }
}
