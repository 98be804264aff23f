/** Stage three, `merge_pdfs.py`: collect the manifest's PDFs that exist, in
    manifest order, concatenate their pages and record one bookmark per
    non-empty file at the page where it starts.

    The PDF library is an oracle: reading a path gives a page count or fails
    as a whole; attaching an outline item succeeds or fails; writing the
    output succeeds or fails and then has a size. The filesystem is the set of
    paths that exist. */
module MergePdfs {
  import opened Strings
  import opened Records

  /** One entry of the list `get_pdf_files_in_order` returns. */
  datatype PdfFile = PdfFile(path: string, title: string, url: string)

  /** The entry for a manifest link whose PDF lives in `pdfDir`. */
  function FileOf(pdfDir: string, link: Link): PdfFile {
    PdfFile(PathJoin(pdfDir, link.fileName), link.title, link.url)
  }

  /** The entries of the links whose PDF exists, in manifest order. */
  function ExistingFiles(links: seq<Link>, pdfDir: string, fs: set<string>): seq<PdfFile> {
    if links == [] then []
    else
      var n := |links| - 1;
      var f := FileOf(pdfDir, links[n]);
      ExistingFiles(links[..n], pdfDir, fs) + (if f.path in fs then [f] else [])
  }

  /** Filtering distributes over concatenation: the files of `a` come first,
      in their order, then those of `b`. */
  lemma {:induction false} ExistingFilesAppend(a: seq<Link>, b: seq<Link>, pdfDir: string, fs: set<string>)
    ensures ExistingFiles(a + b, pdfDir, fs) == ExistingFiles(a, pdfDir, fs) + ExistingFiles(b, pdfDir, fs)
    decreases |b|
  {
    if b == [] {
      assert a + b == a;
    } else {
      var n := |b| - 1;
      assert (a + b)[..|a + b| - 1] == a + b[..n];
      ExistingFilesAppend(a, b[..n], pdfDir, fs);
    }
  }

  /** Every link whose PDF exists has its entry listed. */
  lemma {:induction false} ExistingFilesComplete(links: seq<Link>, pdfDir: string, fs: set<string>)
    ensures forall i :: 0 <= i < |links| && FileOf(pdfDir, links[i]).path in fs ==>
              FileOf(pdfDir, links[i]) in ExistingFiles(links, pdfDir, fs)
  {
    if links != [] {
      var n := |links| - 1;
      ExistingFilesComplete(links[..n], pdfDir, fs);
      forall i | 0 <= i < n && FileOf(pdfDir, links[i]).path in fs
        ensures FileOf(pdfDir, links[i]) in ExistingFiles(links, pdfDir, fs)
      {
        assert links[..n][i] == links[i];
      }
    }
  }

  /** Every listed entry belongs to a link whose PDF exists, and there are
      never more entries than links. */
  lemma {:induction false} ExistingFilesSound(links: seq<Link>, pdfDir: string, fs: set<string>)
    ensures |ExistingFiles(links, pdfDir, fs)| <= |links|
    ensures forall f :: f in ExistingFiles(links, pdfDir, fs) ==>
              f.path in fs && exists i :: 0 <= i < |links| && f == FileOf(pdfDir, links[i])
  {
    if links != [] {
      var n := |links| - 1;
      ExistingFilesSound(links[..n], pdfDir, fs);
      forall f | f in ExistingFiles(links, pdfDir, fs)
        ensures f.path in fs && exists i :: 0 <= i < |links| && f == FileOf(pdfDir, links[i])
      {
        if f in ExistingFiles(links[..n], pdfDir, fs) {
          var i :| 0 <= i < n && f == FileOf(pdfDir, links[..n][i]);
          assert links[..n][i] == links[i];
        } else {
          assert f == FileOf(pdfDir, links[n]);
        }
      }
    }
  }

  /** `get_pdf_files_in_order`: nothing when the directory is missing,
      otherwise the entries of the links whose PDF exists. */
  method GetPdfFilesInOrder(manifest: Manifest, pdfDir: string, fs: set<string>)
    returns (pdfFiles: seq<PdfFile>)
    ensures pdfDir !in fs ==> pdfFiles == []
    ensures pdfDir in fs ==> pdfFiles == ExistingFiles(manifest.links, pdfDir, fs)
    ensures forall k :: 0 <= k < |pdfFiles| ==> pdfFiles[k].path in fs
  {
    pdfFiles := [];
    if pdfDir !in fs {
      return;
    }
    var links := manifest.links;
    for i := 0 to |links|
      invariant pdfFiles == ExistingFiles(links[..i], pdfDir, fs)
      invariant forall k :: 0 <= k < |pdfFiles| ==> pdfFiles[k].path in fs
    {
      var pdfPath := PathJoin(pdfDir, links[i].fileName);
      if pdfPath in fs {
        pdfFiles := pdfFiles + [PdfFile(pdfPath, links[i].title, links[i].url)];
      }
      assert links[..i + 1][..i] == links[..i];
    }
    assert links[..|links|] == links;
  }

  /** Reading one PDF: its page count, or a failure that adds nothing. */
  datatype PdfRead = Pages(count: nat) | ReadFailed

  type Reader = string -> PdfRead

  function PageCount(r: PdfRead): nat {
    if r.Pages? then r.count else 0
  }

  /** One recorded bookmark: the file's title, the 0-based page where it
      starts in the merged document, and its number of pages. */
  datatype Bookmark = Bookmark(title: string, page: nat, pageCount: nat)

  /** A page of the merged document: page `index` of the file at `path`. */
  datatype PageRef = PageRef(path: string, index: nat)

  /** The accumulators of `merge_pdfs_with_bookmarks` and the writer's pages. */
  datatype Merge = Merge(processed: nat, errors: nat, currentPage: nat, bookmarks: seq<Bookmark>, pages: seq<PageRef>)

  function PagesOf(path: string, n: nat): seq<PageRef> {
    seq(n, j requires 0 <= j < n => PageRef(path, j))
  }

  /** One turn of the file loop: a file that cannot be read counts as an
      error; a readable one adds its pages, counts as processed, and when it
      has pages gets a bookmark at the current offset, which then advances. */
  function Step(m: Merge, f: PdfFile, read: Reader): Merge {
    match read(f.path)
    case ReadFailed => m.(errors := m.errors + 1)
    case Pages(n) =>
      var added := m.(pages := m.pages + PagesOf(f.path, n), processed := m.processed + 1);
      if n > 0 then
        added.(bookmarks := m.bookmarks + [Bookmark(f.title, m.currentPage, n)], currentPage := m.currentPage + n)
      else added
  }

  /** The file loop over `files`, from the initial accumulators. */
  function Accumulate(files: seq<PdfFile>, read: Reader): Merge {
    if files == [] then Merge(0, 0, 0, [], [])
    else Step(Accumulate(files[..|files| - 1], read), files[|files| - 1], read)
  }

  /** How many of `files` can be read. */
  function ReadCount(files: seq<PdfFile>, read: Reader): nat {
    if files == [] then 0
    else
      var n := |files| - 1;
      ReadCount(files[..n], read) + (if read(files[n].path).Pages? then 1 else 0)
  }

  /** The total number of pages of the readable files among `files`. */
  function PageSum(files: seq<PdfFile>, read: Reader): nat {
    if files == [] then 0
    else
      var n := |files| - 1;
      PageSum(files[..n], read) + PageCount(read(files[n].path))
  }

  /** The positions of the files that are readable and have pages. */
  function WithPages(files: seq<PdfFile>, read: Reader): seq<nat> {
    if files == [] then []
    else
      var n := |files| - 1;
      WithPages(files[..n], read) + (if PageCount(read(files[n].path)) > 0 then [n] else [])
  }

  /** The positions with pages are increasing and name exactly the files that
      can be read and have at least one page. */
  lemma {:induction false} WithPagesSpec(files: seq<PdfFile>, read: Reader)
    ensures forall k, l :: 0 <= k < l < |WithPages(files, read)| ==>
              WithPages(files, read)[k] < WithPages(files, read)[l]
    ensures forall k :: 0 <= k < |WithPages(files, read)| ==> WithPages(files, read)[k] < |files|
    ensures forall i :: 0 <= i < |files| ==>
              (i in WithPages(files, read) <==> PageCount(read(files[i].path)) > 0)
  {
    if files != [] {
      WithPagesSpec(files[..|files| - 1], read);
    }
  }

  /** The counters: every file is either processed or an error, the offset is
      the number of pages written and the total of the readable files' pages,
      and there is one bookmark per file with pages. */
  lemma {:induction false} AccumulateCounts(files: seq<PdfFile>, read: Reader)
    ensures var m := Accumulate(files, read);
            && m.processed + m.errors == |files|
            && m.processed == ReadCount(files, read)
            && m.currentPage == |m.pages| == PageSum(files, read)
            && |m.bookmarks| == |WithPages(files, read)| <= m.processed
  {
    if files != [] {
      AccumulateCounts(files[..|files| - 1], read);
    }
  }

  /** Bookmark k belongs to the k-th file with pages: it carries that file's
      title and page count, and starts at the total of the pages before it. */
  lemma {:induction false} AccumulateBookmarks(files: seq<PdfFile>, read: Reader)
    ensures var m := Accumulate(files, read);
            var ne := WithPages(files, read);
            |m.bookmarks| == |ne| &&
            forall k :: 0 <= k < |ne| ==>
              ne[k] < |files| &&
              m.bookmarks[k] == Bookmark(files[ne[k]].title, PageSum(files[..ne[k]], read),
                                         PageCount(read(files[ne[k]].path)))
  {
    if files != [] {
      var n := |files| - 1;
      var prev := files[..n];
      AccumulateBookmarks(prev, read);
      AccumulateCounts(prev, read);
      WithPagesSpec(prev, read);
      var m := Accumulate(files, read);
      var ne := WithPages(files, read);
      forall k | 0 <= k < |ne|
        ensures ne[k] < |files|
        ensures m.bookmarks[k] == Bookmark(files[ne[k]].title, PageSum(files[..ne[k]], read),
                                           PageCount(read(files[ne[k]].path)))
      {
        if k < |WithPages(prev, read)| {
          var i := ne[k];
          assert prev[i] == files[i];
          assert prev[..i] == files[..i];
        } else {
          assert ne[k] == n;
          assert files[..n] == prev;
        }
      }
    }
  }

  /** The merged document holds the pages of every readable file, in order:
      file i's pages start at the total of the pages before it. */
  lemma {:induction false} AccumulatePages(files: seq<PdfFile>, read: Reader)
    ensures PagesPlaced(files, read, Accumulate(files, read).pages)
  {
    if files != [] {
      var n := |files| - 1;
      var prev := files[..n];
      AccumulatePages(prev, read);
      AccumulateCounts(prev, read);
      PagesSnoc(files, read);
      assert files == prev + [files[n]];
      PlacedSnoc(prev, files[n], read, Accumulate(prev, read).pages);
    }
  }

  /** Appending a file's pages to a document that already holds the files
      before it places that file's pages right after theirs. */
  lemma PlacedSnoc(prev: seq<PdfFile>, f: PdfFile, read: Reader, pages: seq<PageRef>)
    requires PagesPlaced(prev, read, pages)
    requires |pages| == PageSum(prev, read)
    ensures PagesPlaced(prev + [f], read, pages + PagesOf(f.path, PageCount(read(f.path))))
  {
    var files := prev + [f];
    var extra := PagesOf(f.path, PageCount(read(f.path)));
    forall i | 0 <= i < |files|
      ensures PlacedAt(pages + extra, PageSum(files[..i], read), files[i], read)
    {
      if i < |prev| {
        assert files[..i] == prev[..i];
        assert files[i] == prev[i];
        PlacedAtAppend(pages, extra, PageSum(prev[..i], read), prev[i], read);
      } else {
        assert files[..i] == prev;
        assert (pages + extra)[|pages|..] == extra;
      }
    }
  }

  /** Pages already in place stay in place when more pages follow. */
  lemma PlacedAtAppend(pages: seq<PageRef>, extra: seq<PageRef>, lo: nat, f: PdfFile, read: Reader)
    requires PlacedAt(pages, lo, f, read)
    ensures PlacedAt(pages + extra, lo, f, read)
  {
    var c := PageCount(read(f.path));
    assert (pages + extra)[lo..lo + c] == pages[lo..lo + c];
  }

  /** File i's pages sit, in their order, at the total of the pages before
      file i. */
  predicate PagesPlaced(files: seq<PdfFile>, read: Reader, pages: seq<PageRef>) {
    forall i :: 0 <= i < |files| ==> PlacedAt(pages, PageSum(files[..i], read), files[i], read)
  }

  /** The pages of `f` sit, in their order, at position `lo` of `pages`. */
  predicate PlacedAt(pages: seq<PageRef>, lo: nat, f: PdfFile, read: Reader) {
    var c := PageCount(read(f.path));
    lo + c <= |pages| && pages[lo..lo + c] == PagesOf(f.path, c)
  }

  /** The last file's pages follow the pages of the files before it. */
  lemma PagesSnoc(files: seq<PdfFile>, read: Reader)
    requires files != []
    ensures var n := |files| - 1;
            Accumulate(files, read).pages
            == Accumulate(files[..n], read).pages + PagesOf(files[n].path, PageCount(read(files[n].path)))
  {
    var n := |files| - 1;
    if read(files[n].path).ReadFailed? {
      assert PagesOf(files[n].path, 0) == [];
    }
  }

  /** The pages of a prefix are no more than the pages of the whole. */
  lemma {:induction false} PageSumPrefix(files: seq<PdfFile>, i: nat, read: Reader)
    requires i <= |files|
    ensures PageSum(files[..i], read) + PageCount(if i < |files| then read(files[i].path) else ReadFailed)
            <= PageSum(files, read)
    decreases |files|
  {
    if i < |files| {
      var n := |files| - 1;
      if i < n {
        assert files[..n][..i] == files[..i];
        assert files[..n][i] == files[i];
        PageSumPrefix(files[..n], i, read);
      } else {
        assert files[..n] == files[..i];
      }
    } else {
      assert files[..i] == files;
    }
  }

  /** Bookmarks follow the input order with strictly increasing start pages,
      and each lies inside the merged document. */
  lemma BookmarksOrdered(files: seq<PdfFile>, read: Reader)
    ensures var m := Accumulate(files, read);
            && (forall k, l :: 0 <= k < l < |m.bookmarks| ==> m.bookmarks[k].page < m.bookmarks[l].page)
            && (forall k :: 0 <= k < |m.bookmarks| ==>
                  0 < m.bookmarks[k].pageCount && m.bookmarks[k].page + m.bookmarks[k].pageCount <= m.currentPage)
  {
    var m := Accumulate(files, read);
    var ne := WithPages(files, read);
    AccumulateBookmarks(files, read);
    AccumulateCounts(files, read);
    WithPagesSpec(files, read);
    forall k | 0 <= k < |m.bookmarks|
      ensures 0 < m.bookmarks[k].pageCount && m.bookmarks[k].page + m.bookmarks[k].pageCount <= m.currentPage
    {
      PageSumPrefix(files, ne[k], read);
    }
    forall k, l | 0 <= k < l < |m.bookmarks|
      ensures m.bookmarks[k].page < m.bookmarks[l].page
    {
      var i, j := ne[k], ne[l];
      assert files[..j][..i] == files[..i];
      assert files[..j][i] == files[i];
      PageSumPrefix(files[..j], i, read);
    }
  }

  /** The outline items that `add_outline_item` accepted, in order. */
  function Attached(bookmarks: seq<Bookmark>, attach: Bookmark -> bool): seq<Bookmark> {
    if bookmarks == [] then []
    else
      var n := |bookmarks| - 1;
      Attached(bookmarks[..n], attach) + (if attach(bookmarks[n]) then [bookmarks[n]] else [])
  }

  /** A failing attach drops only its own bookmark: the outline holds exactly
      the bookmarks whose attach succeeded. */
  lemma {:induction false} AttachedSpec(bookmarks: seq<Bookmark>, attach: Bookmark -> bool)
    ensures |Attached(bookmarks, attach)| <= |bookmarks|
    ensures forall b :: b in Attached(bookmarks, attach) <==> b in bookmarks && attach(b)
    ensures (forall k :: 0 <= k < |bookmarks| ==> attach(bookmarks[k])) ==> Attached(bookmarks, attach) == bookmarks
  {
    if bookmarks != [] {
      var n := |bookmarks| - 1;
      AttachedSpec(bookmarks[..n], attach);
      assert bookmarks == bookmarks[..n] + [bookmarks[n]];
    }
  }

  /** The dictionary `merge_pdfs_with_bookmarks` returns. */
  datatype MergeResult =
    | Merged(outputPath: string, fileSize: nat, pageCount: nat, processedCount: nat, errorCount: nat,
             bookmarksCount: nat, bookmarks: seq<Bookmark>)
    | MergeFailed

  /** `merge_pdfs_with_bookmarks`: read every file once, in order, append its
      pages and record its bookmark; attach the bookmarks one by one, a
      failure dropping only that one; then write the output. The result
      reports success whenever the write succeeds, even when no file could be
      read. `pages` and `outline` are the writer's pages and outline. */
  method MergePdfsWithBookmarks(pdfFiles: seq<PdfFile>, outputPath: string, read: Reader,
                                attach: Bookmark -> bool, writeOk: bool, fileSize: nat)
    returns (result: MergeResult, pages: seq<PageRef>, outline: seq<Bookmark>)
    ensures var m := Accumulate(pdfFiles, read);
            && pages == m.pages
            && outline == Attached(m.bookmarks, attach)
            && (writeOk ==> result == Merged(outputPath, fileSize, m.currentPage, m.processed, m.errors,
                                             |m.bookmarks|, m.bookmarks))
    ensures !writeOk <==> result == MergeFailed
    ensures result.Merged? ==>
              && result.processedCount + result.errorCount == |pdfFiles|
              && result.pageCount == PageSum(pdfFiles, read) == |pages|
              && result.bookmarksCount == |result.bookmarks| <= result.processedCount
  {
    var processedCount, errorCount, currentPage := 0, 0, 0;
    var bookmarks: seq<Bookmark> := [];
    pages := [];
    for i := 0 to |pdfFiles|
      invariant Merge(processedCount, errorCount, currentPage, bookmarks, pages) == Accumulate(pdfFiles[..i], read)
    {
      var pdfFile := pdfFiles[i];
      match read(pdfFile.path) {
        case ReadFailed =>
          errorCount := errorCount + 1;
        case Pages(pageCount) =>
          pages := pages + PagesOf(pdfFile.path, pageCount);
          if pageCount > 0 {
            bookmarks := bookmarks + [Bookmark(pdfFile.title, currentPage, pageCount)];
            currentPage := currentPage + pageCount;
          }
          processedCount := processedCount + 1;
      }
      assert pdfFiles[..i + 1][..i] == pdfFiles[..i];
    }
    assert pdfFiles[..|pdfFiles|] == pdfFiles;
    outline := [];
    for k := 0 to |bookmarks|
      invariant outline == Attached(bookmarks[..k], attach)
    {
      if attach(bookmarks[k]) {
        outline := outline + [bookmarks[k]];
      }
      assert bookmarks[..k + 1][..k] == bookmarks[..k];
    }
    assert bookmarks[..|bookmarks|] == bookmarks;
    if !writeOk {
      return MergeFailed, pages, outline;
    }
    AccumulateCounts(pdfFiles, read);
    result := Merged(outputPath, fileSize, currentPage, processedCount, errorCount, |bookmarks|, bookmarks);
  }

  /** `main` from the manifest on: exit code 1 when the manifest cannot be
      read or is empty, when no PDF is found, or when the merge fails;
      0 otherwise. */
  method MergeMain(input: JsonInput, pdfDir: string, outputPath: string, fs: set<string>, read: Reader,
                   attach: Bookmark -> bool, writeOk: bool, fileSize: nat)
    returns (exitCode: int, result: Option<MergeResult>)
    ensures exitCode == 0 || exitCode == 1
    ensures exitCode == 0 <==>
              && input.Parsed?
              && pdfDir in fs
              && ExistingFiles(input.manifest.links, pdfDir, fs) != []
              && writeOk
    ensures result.Some? <==> input.Parsed? && pdfDir in fs && ExistingFiles(input.manifest.links, pdfDir, fs) != []
  {
    if !input.Parsed? {
      return 1, None;
    }
    var pdfFiles := GetPdfFilesInOrder(input.manifest, pdfDir, fs);
    if pdfFiles == [] {
      return 1, None;
    }
    var merged, pages, outline := MergePdfsWithBookmarks(pdfFiles, outputPath, read, attach, writeOk, fileSize);
    result := Some(merged);
    exitCode := if merged.Merged? then 0 else 1;
  }
}
