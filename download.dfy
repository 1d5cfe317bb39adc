/**
 * Saving the found pages. Each page is fetched and written to `<dir>/<page:03d><ext>`, the
 * extension taken from its URL (`.webp` when the URL has none); a page that fails is recorded
 * instead. The asynchronous downloader keeps both records as sets, builds a PDF of the sorted
 * files and returns its directory with the sorted failed pages; the sequential one keeps lists.
 *
 * Fetching and writing a page is the oracle `fetch`: `fetch(u)` holds when the GET of `u`
 * answers a success status and the file is written.
 */
module Download {
  import opened Wrappers
  import opened Text
  import opened Decimal
  import opened Ordering
  import opened Paths
  import opened Identifiers
  import opened Template
  import opened Resolver

  /** The extension used when an image URL has none. */
  const DefaultExtension: string := ".webp"

  /** `os.path.splitext(img_url)[1] or '.webp'`. */
  function ImageExt(url: string): (ext: string)
    ensures |ext| > 0 && ext[0] == '.' && '/' !in ext
    ensures SplitExt(url).1 != [] ==> ext == SplitExt(url).1
    ensures SplitExt(url).1 == [] ==> ext == DefaultExtension
  {
    var e := SplitExt(url).1;
    if e == [] then DefaultExtension else e
  }

  /** `f"{page_num:03d}{ext}"` */
  function FileName(page: nat, url: string): (name: string)
    ensures |name| > 3 && IsDigit(name[0]) && '/' !in name
  {
    var digits, ext := Pad3(page), ImageExt(url);
    assert '/' !in digits by {
      assert forall k :: 0 <= k < |digits| ==> IsDigit(digits[k]);
    }
    digits + ext
  }

  /** `os.path.join(manga_dir, filename)` */
  function FilePath(dir: string, page: nat, url: string): (path: string)
    ensures Basename(path) == FileName(page, url)
  {
    var name := FileName(page, url);
    BasenameOfJoin(dir, name);
    PathJoin(dir, name)
  }

  /** Every candidate URL ends in `/<page><ext>`, so its extension is `ext`. */
  lemma FormUrlExtension(server: string, t: ImagePattern, page: nat, e: nat, f: nat)
    requires e < 3 && f < 4
    ensures SplitExt(FormUrl(server, t, page, Extensions[e], f)).1 == Extensions[e]
  {
    var scheme := if f == 0 || f == 2 then "http://" else "https://";
    var path := if f < 2 then t.pattern else SecondaryPath(t);
    var dir := scheme + ImageHost(server) + "/" + path;
    var stem := Str(page);
    assert '/' !in stem && '.' !in stem by {
      assert forall k :: 0 <= k < |stem| ==> IsDigit(stem[k]);
    }
    var tail := Extensions[e][1..];
    assert Extensions[e] == "." + tail;
    assert '/' !in tail && '.' !in tail by {
      if e == 0 { assert tail == "jpg"; } else if e == 1 { assert tail == "png"; } else { assert tail == "webp"; }
    }
    assert FormUrl(server, t, page, Extensions[e], f) == dir + "/" + stem + "." + tail;
    SplitExtOf(dir, stem, tail);
  }

  /**
   * The extension `verify_image_url` reports for a page is the one the file is saved under:
   * every candidate URL ends in `/<page><ext>`.
   */
  lemma VerifiedExtensionIsSaved(server: string, t: ImagePattern, page: nat, probe: string -> bool)
    requires Verified(server, t, page, probe).url.Some?
    ensures ImageExt(Verified(server, t, page, probe).url.value) == Verified(server, t, page, probe).extension.value
  {
    var urls := Candidates(server, t, page);
    var i := FirstIndex(urls, probe).value;
    CandidateIndex(server, t, page, i / 4, i % 4);
    FormUrlExtension(server, t, page, i / 4, i % 4);
  }

  /** No two pages are saved under the same name, whatever their extensions. */
  lemma FileNameDeterminesPage(p: nat, q: nat, u1: string, u2: string)
    requires FileName(p, u1) == FileName(q, u2)
    ensures p == q
  {
    var a, b := Pad3(p), Pad3(q);
    var x, y := ImageExt(u1), ImageExt(u2);
    assert (a + x)[|a|] == '.' && (b + y)[|b|] == '.';
    assert |a| == |b|;
    assert a == (a + x)[..|a|] == (b + y)[..|b|] == b;
    Pad3Injective(p, q);
  }

  /** Within one directory, distinct pages never share a file. */
  lemma FilePathDeterminesPage(dir: string, p: nat, q: nat, u1: string, u2: string)
    requires FilePath(dir, p, u1) == FilePath(dir, q, u2)
    ensures p == q
  {
    var n1, n2 := FileName(p, u1), FileName(q, u2);
    assert IsDigit(n1[0]) && IsDigit(n2[0]);
    if |dir| == 0 || dir[|dir| - 1] == '/' {
      assert dir + n1 == dir + n2;
      assert n1 == (dir + n1)[|dir|..] == (dir + n2)[|dir|..] == n2;
    } else {
      assert n1 == (dir + "/" + n1)[|dir| + 1..] == (dir + "/" + n2)[|dir| + 1..] == n2;
    }
    FileNameDeterminesPage(p, q, u1, u2);
  }

  /**
   * Below page 1000, sorting the saved files by name (Python string order) sorts them by page
   * number.
   */
  lemma FilePathOrder(dir: string, p: nat, q: nat, u1: string, u2: string)
    requires p < 1000 && q < 1000 && p != q
    ensures LexLess(FilePath(dir, p, u1), FilePath(dir, q, u2)) <==> p < q
  {
    var prefix := if |dir| == 0 || dir[|dir| - 1] == '/' then dir else dir + "/";
    FilePathUnderDir(dir, p, u1);
    FilePathUnderDir(dir, q, u2);
    LexLessCommonPrefix(prefix, FileName(p, u1), FileName(q, u2));
    Pad3OrderIsNumeric(p, q, ImageExt(u1), ImageExt(u2));
  }

  /** A file's path is its directory, a separator unless the directory ends in one, and its name. */
  lemma FilePathUnderDir(dir: string, p: nat, u: string)
    ensures FilePath(dir, p, u) == (if |dir| == 0 || dir[|dir| - 1] == '/' then dir else dir + "/") + FileName(p, u)
  {
    assert IsDigit(FileName(p, u)[0]);
  }

  /** From page 1000 on, name order and page order part: `1000.jpg` sorts before `999.jpg`. */
  lemma FileOrderPast999(u1: string, u2: string)
    ensures LexLess(FileName(1000, u1), FileName(999, u2))
  {
    assert Str(1000) == Str(100) + ['0'];
    assert Str(100) == Str(10) + ['0'];
    assert Str(10) == Str(1) + ['0'];
    assert Pad3(1000)[0] == '1';
    assert Pad3(999)[0] == '9';
  }

  /** A page can be saved: its URL has a host part (`img_url.split('/')[2]`) and the fetch succeeds. */
  predicate Downloads(url: string, fetch: string -> bool)
    ensures Downloads(url, fetch) ==> fetch(url) && '/' in url
  {
    assert '/' !in url ==> |Split(url, '/')| == 1 by {
      if '/' !in url {
        SplitWithoutSep(url, '/');
      }
    }
    |Split(url, '/')| > 2 && fetch(url)
  }

  /** The files `path(p, urls[p])` of the pages whose URL satisfies `ok`. */
  function Saved(urls: map<nat, string>, ok: string -> bool, path: (nat, string) -> string): (files: set<string>)
  {
    set p | p in urls && ok(urls[p]) :: path(p, urls[p])
  }

  lemma SavedMembers(urls: map<nat, string>, ok: string -> bool, path: (nat, string) -> string)
    ensures forall f :: f in Saved(urls, ok, path) <==> exists p :: p in urls && ok(urls[p]) && f == path(p, urls[p])
  {
  }

  lemma SavedStep(urls: map<nat, string>, ok: string -> bool, path: (nat, string) -> string, page: nat, url: string)
    requires page !in urls
    ensures Saved(urls[page := url], ok, path) == Saved(urls, ok, path) + if ok(url) then {path(page, url)} else {}
  {
    var m := urls[page := url];
    SavedMembers(m, ok, path);
    SavedMembers(urls, ok, path);
    forall f | f in Saved(m, ok, path) ensures f in Saved(urls, ok, path) || (ok(url) && f == path(page, url)) {
      var p :| p in m && ok(m[p]) && f == path(p, m[p]);
      if p != page {
        assert p in urls && m[p] == urls[p];
      }
    }
    forall f | f in Saved(urls, ok, path) ensures f in Saved(m, ok, path) {
      var p :| p in urls && ok(urls[p]) && f == path(p, urls[p]);
      assert p in m && m[p] == urls[p];
    }
    if ok(url) {
      assert m[page] == url;
    }
  }

  function DownloadsWith(fetch: string -> bool): string -> bool {
    (u: string) => Downloads(u, fetch)
  }

  function PathIn(dir: string): (nat, string) -> string {
    (p: nat, u: string) => FilePath(dir, p, u)
  }

  /** The files written for the pages of `urls` that download. */
  function DownloadedFiles(urls: map<nat, string>, dir: string, fetch: string -> bool): (files: set<string>)
  {
    Saved(urls, DownloadsWith(fetch), PathIn(dir))
  }

  /** A file is downloaded exactly when it is the file of a page that downloads. */
  lemma DownloadedFilesMembers(urls: map<nat, string>, dir: string, fetch: string -> bool)
    ensures forall f :: f in DownloadedFiles(urls, dir, fetch) <==>
      exists p :: p in urls && Downloads(urls[p], fetch) && f == FilePath(dir, p, urls[p])
  {
    var ok, path := DownloadsWith(fetch), PathIn(dir);
    SavedMembers(urls, ok, path);
    forall f ensures f in Saved(urls, ok, path) <==> exists p :: p in urls && Downloads(urls[p], fetch) && f == FilePath(dir, p, urls[p]) {
      if f in Saved(urls, ok, path) {
        var p :| p in urls && ok(urls[p]) && f == path(p, urls[p]);
        assert Downloads(urls[p], fetch) && f == FilePath(dir, p, urls[p]);
      }
      if exists p :: p in urls && Downloads(urls[p], fetch) && f == FilePath(dir, p, urls[p]) {
        var p :| p in urls && Downloads(urls[p], fetch) && f == FilePath(dir, p, urls[p]);
        assert ok(urls[p]) && f == path(p, urls[p]);
      }
    }
  }

  /** The pages of `urls` that fail. */
  function FailedPages(urls: map<nat, string>, fetch: string -> bool): (pages: set<nat>)
    ensures pages <= urls.Keys
  {
    set p | p in urls && !Downloads(urls[p], fetch)
  }

  /** One more page adds its file when it downloads, and itself to the failed pages otherwise. */
  lemma DownloadStep(urls: map<nat, string>, dir: string, fetch: string -> bool, page: nat, url: string)
    requires page !in urls
    ensures DownloadedFiles(urls[page := url], dir, fetch)
      == DownloadedFiles(urls, dir, fetch) + if Downloads(url, fetch) then {FilePath(dir, page, url)} else {}
    ensures FailedPages(urls[page := url], fetch) == FailedPages(urls, fetch) + if Downloads(url, fetch) then {} else {page}
  {
    SavedStep(urls, DownloadsWith(fetch), PathIn(dir), page, url);
    assert DownloadsWith(fetch)(url) == Downloads(url, fetch);
    assert PathIn(dir)(page, url) == FilePath(dir, page, url);
    FailedStep(urls, fetch, page, url);
  }

  lemma FailedStep(urls: map<nat, string>, fetch: string -> bool, page: nat, url: string)
    requires page !in urls
    ensures FailedPages(urls[page := url], fetch) == FailedPages(urls, fetch) + if Downloads(url, fetch) then {} else {page}
  {
    var m := urls[page := url];
    assert forall p :: p in m && p != page ==> m[p] == urls[p];
  }

  /**
   * Every page ends up exactly once in the record: either its own file is among the downloaded
   * ones, or it is among the failed pages, never both.
   */
  lemma DownloadPartition(urls: map<nat, string>, dir: string, fetch: string -> bool, p: nat)
    requires p in urls
    ensures FilePath(dir, p, urls[p]) in DownloadedFiles(urls, dir, fetch) <==> p !in FailedPages(urls, fetch)
  {
    DownloadedFilesMembers(urls, dir, fetch);
    if FilePath(dir, p, urls[p]) in DownloadedFiles(urls, dir, fetch) {
      var q :| q in urls && Downloads(urls[q], fetch) && FilePath(dir, p, urls[p]) == FilePath(dir, q, urls[q]);
      FilePathDeterminesPage(dir, p, q, urls[p], urls[q]);
    }
  }

  /** The shared records of the asynchronous downloader: `downloaded_files` and `failed_pages`. */
  class DownloadState {
    var downloadedFiles: set<string>
    var failedPages: set<nat>

    constructor()
      ensures downloadedFiles == {} && failedPages == {}
    {
      downloadedFiles, failedPages := {}, {};
    }

    /** `download_image`: record the saved file, or the page when anything fails. */
    method DownloadImage(page: nat, url: string, mangaDir: string, fetch: string -> bool)
      modifies this
      ensures downloadedFiles == old(downloadedFiles) + if Downloads(url, fetch) then {FilePath(mangaDir, page, url)} else {}
      ensures failedPages == old(failedPages) + if Downloads(url, fetch) then {} else {page}
    {
      if |Split(url, '/')| <= 2 || !fetch(url) {
        failedPages := failedPages + {page};
        return;
      }
      var ext := SplitExt(url).1;
      if ext == [] {
        ext := DefaultExtension;
      }
      var filename := Pad3(page) + ext;
      var filepath := PathJoin(mangaDir, filename);
      downloadedFiles := downloadedFiles + {filepath};
    }

    /**
     * The download tasks, one per page in page order. They run concurrently in the source; each
     * adds to a set, so the order does not change the outcome.
     */
    method DownloadAll(urls: map<nat, string>, mangaDir: string, fetch: string -> bool)
      modifies this
      ensures downloadedFiles == old(downloadedFiles) + DownloadedFiles(urls, mangaDir, fetch)
      ensures failedPages == old(failedPages) + FailedPages(urls, fetch)
    {
      var pending := urls.Keys;
      ghost var done: map<nat, string> := map[];
      while pending != {}
        invariant pending <= urls.Keys
        invariant forall p :: p in done <==> p in urls && p !in pending
        invariant forall p :: p in done ==> done[p] == urls[p]
        invariant downloadedFiles == old(downloadedFiles) + DownloadedFiles(done, mangaDir, fetch)
        invariant failedPages == old(failedPages) + FailedPages(done, fetch)
        decreases pending
      {
        var page :| page in pending;
        var url := urls[page];
        DownloadStep(done, mangaDir, fetch, page, url);
        DownloadImage(page, url, mangaDir, fetch);
        assert downloadedFiles == old(downloadedFiles) + (DownloadedFiles(done, mangaDir, fetch)
          + if Downloads(url, fetch) then {FilePath(mangaDir, page, url)} else {});
        assert failedPages == old(failedPages) + (FailedPages(done, fetch) + if Downloads(url, fetch) then {} else {page});
        done := done[page := url];
        pending := pending - {page};
      }
      SameMap(done, urls);
    }
  }

  lemma SameMap(m1: map<nat, string>, m2: map<nat, string>)
    requires forall p :: p in m1 <==> p in m2
    requires forall p :: p in m1 ==> m1[p] == m2[p]
    ensures m1 == m2
  {
  }

  /** What `convert_to_pdf` writes: the PDF's path and its images in order. */
  datatype PdfJob = PdfJob(path: string, images: seq<string>)

  /**
   * `convert_to_pdf(manga_dir, files)`: nothing when there are no files, otherwise
   * `<dir>/<basename(dir)>.pdf` made of the files in sorted order.
   */
  function ConvertToPdf(mangaDir: string, files: seq<string>): (pdf: Option<PdfJob>)
    ensures pdf.None? <==> |files| == 0
    ensures pdf.Some? ==> pdf.value.path == PdfPath(mangaDir)
    ensures pdf.Some? ==> multiset(pdf.value.images) == multiset(files) && Sorted(pdf.value.images, LexLess)
  {
    LexLessIsStrictTotal();
    var images := Sort(files, LexLess);
    if |images| == 0 then
      assert |files| == |multiset(files)| == 0;
      None
    else Some(PdfJob(PdfPath(mangaDir), images))
  }

  /** `os.path.join(manga_dir, f"{os.path.basename(manga_dir)}.pdf")` */
  function PdfPath(mangaDir: string): (path: string)
    ensures |path| >= 4 && path[|path| - 4..] == ".pdf"
  {
    var name := Basename(mangaDir) + ".pdf";
    assert name[|name| - 4..] == ".pdf";
    var path := PathJoin(mangaDir, name);
    assert path[|path| - |name|..] == name;
    assert path[|path| - 4..] == name[|name| - 4..];
    path
  }

  /** The PDF of a set of files, as `download_manga` asks for it: already sorted, sorted again. */
  lemma PdfOfSortedSet(mangaDir: string, files: set<string>)
    requires files != {}
    ensures ConvertToPdf(mangaDir, SortedPaths(files)).Some?
    ensures ConvertToPdf(mangaDir, SortedPaths(files)).value.images == SortedPaths(files)
  {
    LexLessIsStrictTotal();
    SortOfStrictlySorted(SortedPaths(files), LexLess);
  }

  /**
   * For galleries under 1000 pages, the PDF's pages are in page order: the file of the lower
   * page comes first.
   */
  lemma PdfFollowsPageOrder(urls: map<nat, string>, mangaDir: string, fetch: string -> bool, i: nat, j: nat, p: nat, q: nat)
    requires forall k :: k in urls ==> k < 1000
    requires var images := SortedPaths(DownloadedFiles(urls, mangaDir, fetch));
      && i < |images| && j < |images| && p in urls && q in urls
      && images[i] == FilePath(mangaDir, p, urls[p]) && images[j] == FilePath(mangaDir, q, urls[q])
    ensures i < j <==> p < q
  {
    var images := SortedPaths(DownloadedFiles(urls, mangaDir, fetch));
    if p == q {
      assert images[i] == images[j];
      if i < j { assert LexLess(images[i], images[j]); LexLessIrreflexive(images[i]); }
      if j < i { assert LexLess(images[j], images[i]); LexLessIrreflexive(images[i]); }
    } else {
      FilePathOrder(mangaDir, p, q, urls[p], urls[q]);
      FilePathOrder(mangaDir, q, p, urls[q], urls[p]);
      if i == j {
        FilePathDeterminesPage(mangaDir, p, q, urls[p], urls[q]);
      } else if i < j {
        assert LexLess(images[i], images[j]);
      } else {
        assert LexLess(images[j], images[i]);
      }
    }
  }

  /** The CSS selectors tried for the title, in order. */
  const TitleSelectors: seq<string> := ["div#info > h1", "div#info h1", "h1", "div.title", "h2.title"]

  /**
   * The title page as `download_manga` reads it: `select(css)` is the text of the first element
   * matching `css`, if any, and `info` the stripped text of `#info`, if present.
   */
  datatype TitlePage = TitlePage(select: string -> Option<string>, info: Option<string>)

  /** The text of the first selector that matches. */
  function FirstFound(selectors: seq<string>, select: string -> Option<string>): (r: Option<string>)
    ensures r.None? <==> forall k :: 0 <= k < |selectors| ==> select(selectors[k]).None?
    ensures r.Some? ==> exists k :: (0 <= k < |selectors| && r == select(selectors[k])
      && forall j :: 0 <= j < k ==> select(selectors[j]).None?)
  {
    if |selectors| == 0 then None
    else if select(selectors[0]).Some? then select(selectors[0])
    else
      var r := FirstFound(selectors[1..], select);
      assert forall k :: 1 <= k < |selectors| ==> selectors[1..][k - 1] == selectors[k];
      r
  }

  lemma {:induction false} FirstFoundSnoc(selectors: seq<string>, css: string, select: string -> Option<string>)
    ensures FirstFound(selectors + [css], select)
      == if FirstFound(selectors, select).Some? then FirstFound(selectors, select) else select(css)
    decreases |selectors|
  {
    var all := selectors + [css];
    if |selectors| == 0 {
      assert all[1..] == [];
    } else {
      assert all[0] == selectors[0];
      if select(selectors[0]).None? {
        assert all[1..] == selectors[1..] + [css];
        FirstFoundSnoc(selectors[1..], css, select);
      }
    }
  }

  /** The selector loop: every selector is queried, and the first element found is kept. */
  method SelectTitle(select: string -> Option<string>) returns (title: Option<string>)
    ensures title == FirstFound(TitleSelectors, select)
  {
    title := None;
    var i := 0;
    while i < |TitleSelectors|
      invariant 0 <= i <= |TitleSelectors|
      invariant title == FirstFound(TitleSelectors[..i], select)
    {
      var element := select(TitleSelectors[i]);
      FirstFoundSnoc(TitleSelectors[..i], TitleSelectors[i], select);
      assert TitleSelectors[..i + 1] == TitleSelectors[..i] + [TitleSelectors[i]];
      if element.Some? && title.None? {
        title := element;
      }
      i := i + 1;
    }
    assert TitleSelectors[..i] == TitleSelectors;
  }

  /**
   * `manga_name`: the stripped title text made safe; without a title, the first line of `#info`
   * made safe; without either, empty.
   */
  function MangaName(title: Option<string>, info: Option<string>): (name: string)
    ensures forall i :: 0 <= i < |name| ==> !IsForbidden(name[i])
    ensures |name| <= MaxFilenameLength
    ensures title.None? && info.None? ==> name == ""
  {
    match title
    case Some(t) => SafeFormatFilename(Some(Strip(t)))
    case None =>
      match info
      case Some(text) => SafeFormatFilename(Some(Split(text, '\n')[0]))
      case None => ""
  }

  /** `os.path.join(os.getcwd(), 'downloads', f"{manga_id}_{manga_name}")`. */
  function MangaDir(cwd: string, id: string, name: string): (dir: string)
    ensures var stem := id + "_" + name; |stem| <= |dir| && dir[|dir| - |stem|..] == stem
  {
    var stem := id + "_" + name;
    var dir := PathJoin(PathJoin(cwd, "downloads"), stem);
    assert dir[|dir| - |stem|..] == stem;
    dir
  }

  /** Two galleries with different ids never share a directory, whatever their names. */
  lemma MangaDirDeterminesId(cwd: string, id1: string, name1: string, id2: string, name2: string)
    requires IsDigitString(id1) && IsDigitString(id2)
    requires MangaDir(cwd, id1, name1) == MangaDir(cwd, id2, name2)
    ensures id1 == id2
  {
    var base := PathJoin(cwd, "downloads");
    var r1, r2 := "_" + name1, "_" + name2;
    assert MangaDir(cwd, id1, name1) == PathJoin(base, id1 + r1) by {
      assert id1 + "_" + name1 == id1 + r1;
    }
    assert MangaDir(cwd, id2, name2) == PathJoin(base, id2 + r2) by {
      assert id2 + "_" + name2 == id2 + r2;
    }
    assert (id1 + r1)[0] == id1[0] && (id2 + r2)[0] == id2[0];
    JoinCancels(base, id1 + r1, id2 + r2);
    DigitsCancel(id1, r1, id2, r2);
  }

  /** Two digit runs each followed by a non-digit are equal when the whole texts are. */
  lemma DigitsCancel(d1: string, r1: string, d2: string, r2: string)
    requires IsDigitString(d1) && IsDigitString(d2)
    requires |r1| > 0 && !IsDigit(r1[0]) && |r2| > 0 && !IsDigit(r2[0])
    requires d1 + r1 == d2 + r2
    ensures d1 == d2
  {
    DigitRunOf(d1, r1);
    DigitRunOf(d2, r2);
  }

  /** Joining one directory with two relative names gives two paths unless the names agree. */
  lemma JoinCancels(base: string, x1: string, x2: string)
    requires |x1| > 0 && x1[0] != '/' && |x2| > 0 && x2[0] != '/'
    requires PathJoin(base, x1) == PathJoin(base, x2)
    ensures x1 == x2
  {
    var prefix := if |base| == 0 || base[|base| - 1] == '/' then base else base + "/";
    assert PathJoin(base, x1) == prefix + x1;
    assert PathJoin(base, x2) == prefix + x2;
    assert x1 == (prefix + x1)[|prefix|..] == (prefix + x2)[|prefix|..] == x2;
  }

  /** The PDF of a gallery is `<id>_<name>.pdf` inside its directory. */
  lemma MangaPdfPath(cwd: string, id: string, name: string)
    requires IsDigitString(id)
    requires forall i :: 0 <= i < |name| ==> !IsForbidden(name[i])
    ensures PdfPath(MangaDir(cwd, id, name)) == MangaDir(cwd, id, name) + "/" + (id + "_" + name + ".pdf")
  {
    var dir := MangaDir(cwd, id, name);
    var pdfName := id + "_" + name + ".pdf";
    assert Basename(dir) + ".pdf" == pdfName by {
      MangaDirShape(cwd, id, name);
    }
    assert PathJoin(dir, pdfName) == dir + "/" + pdfName by {
      MangaDirShape(cwd, id, name);
      assert pdfName[0] == id[0] && IsDigit(id[0]);
    }
  }

  /** A gallery directory ends in its `<id>_<name>` component, which is its basename. */
  lemma MangaDirShape(cwd: string, id: string, name: string)
    requires IsDigitString(id)
    requires forall i :: 0 <= i < |name| ==> !IsForbidden(name[i])
    ensures |MangaDir(cwd, id, name)| > 0 && MangaDir(cwd, id, name)[|MangaDir(cwd, id, name)| - 1] != '/'
    ensures Basename(MangaDir(cwd, id, name)) == id + "_" + name
  {
    var base := PathJoin(cwd, "downloads");
    var stem := id + "_" + name;
    DownloadsBase(cwd);
    StemWithoutSlash(id, name);
    BasenameOfJoin(base, stem);
    var dir := MangaDir(cwd, id, name);
    assert dir == base + "/" + stem;
    assert dir[|dir| - 1] == stem[|stem| - 1];
  }

  /** `os.path.join(cwd, 'downloads')` ends in `s`, never in a separator. */
  lemma DownloadsBase(cwd: string)
    ensures |PathJoin(cwd, "downloads")| > 0 && PathJoin(cwd, "downloads")[|PathJoin(cwd, "downloads")| - 1] == 's'
  {
  }

  /** A directory name `<id>_<name>` with a numeric id and a safe name holds no separator. */
  lemma StemWithoutSlash(id: string, name: string)
    requires IsDigitString(id)
    requires forall i :: 0 <= i < |name| ==> !IsForbidden(name[i])
    ensures '/' !in id + "_" + name
  {
    var stem := id + "_" + name;
    assert IsForbidden('/');
    forall i | 0 <= i < |stem| ensures stem[i] != '/' {
      if i < |id| { assert IsDigit(stem[i]); }
    }
  }

  /** Why the asynchronous `download_manga` raises instead of returning. */
  datatype DownloadError = InvalidId | TitlePageUnavailable

  /** What `download_manga` returns: the gallery directory (`None` when nothing was found) and the failed pages. */
  datatype DownloadOutcome = DownloadOutcome(dir: Option<string>, failed: seq<nat>)

  /**
   * The asynchronous `download_manga`. `page` is the title page (`None` when fetching it fails) and
   * `imageUrls` the pages `fetch_manga_images` found. It answers the directory and the sorted failed
   * pages, and the PDF it writes when any page was saved.
   */
  method DownloadMangaAsync(url: string, cwd: string, page: Option<TitlePage>, imageUrls: map<nat, string>, fetch: string -> bool)
    returns (r: Result<DownloadOutcome, DownloadError>, pdf: Option<PdfJob>)
    ensures ExtractMangaId(url).Err? ==> r == Err(InvalidId) && pdf.None?
    ensures ExtractMangaId(url).Ok? && page.None? ==> r == Err(TitlePageUnavailable) && pdf.None?
    ensures ExtractMangaId(url).Ok? && page.Some? && imageUrls == map[] ==> r == Ok(DownloadOutcome(None, [])) && pdf.None?
    ensures ExtractMangaId(url).Ok? && page.Some? && imageUrls != map[] ==>
      var name := MangaName(FirstFound(TitleSelectors, page.value.select), page.value.info);
      var dir := MangaDir(cwd, ExtractMangaId(url).value, name);
      var files := DownloadedFiles(imageUrls, dir, fetch);
      && r == Ok(DownloadOutcome(Some(dir), SortedPages(FailedPages(imageUrls, fetch))))
      && (files == {} ==> pdf.None?)
      && (files != {} ==> pdf == ConvertToPdf(dir, SortedPaths(files)))
  {
    pdf := None;
    var id := ExtractMangaId(url);
    if id.Err? {
      return Err(InvalidId), pdf;
    }
    if page.None? {
      return Err(TitlePageUnavailable), pdf;
    }
    var title := SelectTitle(page.value.select);
    var name := MangaName(title, page.value.info);
    var dir := MangaDir(cwd, id.value, name);
    if imageUrls == map[] {
      return Ok(DownloadOutcome(None, [])), pdf;
    }
    var failed;
    failed, pdf := SaveGallery(imageUrls, dir, fetch);
    r := Ok(DownloadOutcome(Some(dir), failed));
  }

  /**
   * The second half of the asynchronous `download_manga`: one download task per page, then the
   * PDF of the saved files when there are any, and the failed pages in order.
   */
  method SaveGallery(imageUrls: map<nat, string>, dir: string, fetch: string -> bool)
    returns (failed: seq<nat>, pdf: Option<PdfJob>)
    ensures failed == SortedPages(FailedPages(imageUrls, fetch))
    ensures DownloadedFiles(imageUrls, dir, fetch) == {} ==> pdf.None?
    ensures DownloadedFiles(imageUrls, dir, fetch) != {} ==>
      pdf == ConvertToPdf(dir, SortedPaths(DownloadedFiles(imageUrls, dir, fetch)))
  {
    var state := new DownloadState();
    state.DownloadAll(imageUrls, dir, fetch);
    assert state.downloadedFiles == DownloadedFiles(imageUrls, dir, fetch);
    assert state.failedPages == FailedPages(imageUrls, fetch);
    pdf := None;
    if state.downloadedFiles != {} {
      pdf := ConvertToPdf(dir, SortedPaths(state.downloadedFiles));
    }
    failed := SortedPages(state.failedPages);
  }

  /** The failed pages among `pages`, in their order: what the sequential loop appends. */
  function FailuresInOrder(pages: seq<nat>, urls: map<nat, string>, fetch: string -> bool): (r: seq<nat>)
    requires forall x :: x in pages ==> x in urls
    ensures |r| <= |pages|
    decreases |pages|
  {
    if |pages| == 0 then []
    else
      var init := pages[..|pages| - 1];
      var last := pages[|pages| - 1];
      assert forall x :: x in init ==> x in pages;
      var rest := FailuresInOrder(init, urls, fetch);
      if Downloads(urls[last], fetch) then rest else rest + [last]
  }

  /** The failures are the pages that do not download, and they keep a sorted list sorted. */
  lemma {:induction false} FailuresInOrderSpec(pages: seq<nat>, urls: map<nat, string>, fetch: string -> bool)
    requires forall x :: x in pages ==> x in urls
    ensures forall x :: x in FailuresInOrder(pages, urls, fetch) <==> x in pages && !Downloads(urls[x], fetch)
    ensures (forall i, j :: 0 <= i < j < |pages| ==> pages[i] < pages[j]) ==>
      forall i, j :: 0 <= i < j < |FailuresInOrder(pages, urls, fetch)| ==>
        FailuresInOrder(pages, urls, fetch)[i] < FailuresInOrder(pages, urls, fetch)[j]
    decreases |pages|
  {
    if |pages| > 0 {
      var init := pages[..|pages| - 1];
      var last := pages[|pages| - 1];
      assert forall x :: x in init ==> x in pages;
      assert forall x :: x in pages <==> x in init || x == last;
      FailuresInOrderSpec(init, urls, fetch);
      var rest := FailuresInOrder(init, urls, fetch);
      if forall i, j :: 0 <= i < j < |pages| ==> pages[i] < pages[j] {
        assert forall k :: 0 <= k < |init| ==> init[k] == pages[k] && init[k] < last;
        assert forall x :: x in init ==> x < last;
        assert forall k :: 0 <= k < |rest| ==> rest[k] in rest;
      }
    }
  }

  /** The files saved for the pages among `pages`, in their order: the sequential `downloaded_files`. */
  function SavedInOrder(pages: seq<nat>, urls: map<nat, string>, dir: string, fetch: string -> bool): (r: seq<string>)
    requires forall x :: x in pages ==> x in urls
    ensures |r| <= |pages|
    decreases |pages|
  {
    if |pages| == 0 then []
    else
      var init := pages[..|pages| - 1];
      var last := pages[|pages| - 1];
      assert forall x :: x in init ==> x in pages;
      var rest := SavedInOrder(init, urls, dir, fetch);
      if Downloads(urls[last], fetch) then rest + [FilePath(dir, last, urls[last])] else rest
  }

  /** The files of the pages among `pages` that download, whatever their order. */
  lemma {:induction false} SavedInOrderMembers(pages: seq<nat>, urls: map<nat, string>, dir: string, fetch: string -> bool)
    requires forall x :: x in pages ==> x in urls
    ensures forall f :: f in SavedInOrder(pages, urls, dir, fetch) <==>
      exists p :: p in pages && Downloads(urls[p], fetch) && f == FilePath(dir, p, urls[p])
    decreases |pages|
  {
    if |pages| > 0 {
      var init := pages[..|pages| - 1];
      var last := pages[|pages| - 1];
      assert forall x :: x in init ==> x in pages;
      assert forall x :: x in pages <==> x in init || x == last;
      SavedInOrderMembers(init, urls, dir, fetch);
    }
  }

  /**
   * The sequential failed list is the sorted set of failed pages, as the asynchronous downloader
   * returns it: the `page not in failed_pages` guard never drops a page.
   */
  lemma SequentialFailuresSorted(urls: map<nat, string>, fetch: string -> bool)
    ensures FailuresInOrder(SortedPages(urls.Keys), urls, fetch) == SortedPages(FailedPages(urls, fetch))
  {
    var xs := FailuresInOrder(SortedPages(urls.Keys), urls, fetch);
    var ys := SortedPages(FailedPages(urls, fetch));
    FailuresInOrderSpec(SortedPages(urls.Keys), urls, fetch);
    NatLessIsStrictTotal();
    StrictlySortedUnique(xs, ys, NatLess);
  }

  /** Both downloaders save the same files: the sequential list holds exactly the asynchronous set. */
  lemma SequentialSavesSameFiles(urls: map<nat, string>, dir: string, fetch: string -> bool)
    ensures forall f :: f in SavedInOrder(SortedPages(urls.Keys), urls, dir, fetch) <==> f in DownloadedFiles(urls, dir, fetch)
  {
    var pages := SortedPages(urls.Keys);
    SavedInOrderMembers(pages, urls, dir, fetch);
    DownloadedFilesMembers(urls, dir, fetch);
  }

  /** One more page of a sorted page list: the step of the sequential loop. */
  lemma InOrderStep(pages: seq<nat>, i: nat, urls: map<nat, string>, dir: string, fetch: string -> bool)
    requires i < |pages| && forall x :: x in pages ==> x in urls
    requires forall a, b :: 0 <= a < b < |pages| ==> pages[a] < pages[b]
    ensures forall x :: x in pages[..i] ==> x in urls
    ensures forall x :: x in pages[..i + 1] ==> x in urls
    ensures pages[i] !in FailuresInOrder(pages[..i], urls, fetch)
    ensures FailuresInOrder(pages[..i + 1], urls, fetch) == FailuresInOrder(pages[..i], urls, fetch)
      + if Downloads(urls[pages[i]], fetch) then [] else [pages[i]]
    ensures SavedInOrder(pages[..i + 1], urls, dir, fetch) == SavedInOrder(pages[..i], urls, dir, fetch)
      + if Downloads(urls[pages[i]], fetch) then [FilePath(dir, pages[i], urls[pages[i]])] else []
  {
    NotYetFailed(pages, i, urls, fetch);
    FailureStep(pages, i, urls, fetch);
    SaveStep(pages, i, urls, dir, fetch);
  }

  lemma FailureStep(pages: seq<nat>, i: nat, urls: map<nat, string>, fetch: string -> bool)
    requires i < |pages| && forall x :: x in pages ==> x in urls
    ensures forall x :: x in pages[..i] ==> x in urls
    ensures forall x :: x in pages[..i + 1] ==> x in urls
    ensures FailuresInOrder(pages[..i + 1], urls, fetch) == FailuresInOrder(pages[..i], urls, fetch)
      + if Downloads(urls[pages[i]], fetch) then [] else [pages[i]]
  {
    assert forall x :: x in pages[..i] ==> x in pages;
    assert forall x :: x in pages[..i + 1] ==> x in pages;
    assert pages[..i + 1][..i] == pages[..i];
  }

  lemma SaveStep(pages: seq<nat>, i: nat, urls: map<nat, string>, dir: string, fetch: string -> bool)
    requires i < |pages| && forall x :: x in pages ==> x in urls
    ensures forall x :: x in pages[..i] ==> x in urls
    ensures forall x :: x in pages[..i + 1] ==> x in urls
    ensures SavedInOrder(pages[..i + 1], urls, dir, fetch) == SavedInOrder(pages[..i], urls, dir, fetch)
      + if Downloads(urls[pages[i]], fetch) then [FilePath(dir, pages[i], urls[pages[i]])] else []
  {
    assert forall x :: x in pages[..i] ==> x in pages;
    assert forall x :: x in pages[..i + 1] ==> x in pages;
    assert pages[..i + 1][..i] == pages[..i];
  }

  /** A page of a strictly sorted list is not among the failures of the pages before it. */
  lemma NotYetFailed(pages: seq<nat>, i: nat, urls: map<nat, string>, fetch: string -> bool)
    requires i < |pages| && forall x :: x in pages ==> x in urls
    requires forall a, b :: 0 <= a < b < |pages| ==> pages[a] < pages[b]
    ensures forall x :: x in pages[..i] ==> x in urls
    ensures pages[i] !in FailuresInOrder(pages[..i], urls, fetch)
  {
    assert forall x :: x in pages[..i] ==> x in pages;
    assert forall k :: 0 <= k < i ==> pages[..i][k] < pages[i];
    FailuresInOrderSpec(pages[..i], urls, fetch);
  }

  /**
   * The sequential download loop: pages in page order, each saved file appended to
   * `downloaded_files` and each failure to `failed_pages`. The failed list starts as the one
   * `fetch_manga_images` returns, which is always empty.
   */
  method SavePagesInOrder(imageUrls: map<nat, string>, dir: string, fetch: string -> bool)
    returns (failed: seq<nat>, downloadedFiles: seq<string>)
    ensures failed == FailuresInOrder(SortedPages(imageUrls.Keys), imageUrls, fetch)
    ensures downloadedFiles == SavedInOrder(SortedPages(imageUrls.Keys), imageUrls, dir, fetch)
  {
    var items := SortedPages(imageUrls.Keys);
    failed, downloadedFiles := [], [];
    var i := 0;
    while i < |items|
      invariant 0 <= i <= |items|
      invariant forall x :: x in items[..i] ==> x in imageUrls
      invariant failed == FailuresInOrder(items[..i], imageUrls, fetch)
      invariant downloadedFiles == SavedInOrder(items[..i], imageUrls, dir, fetch)
    {
      InOrderStep(items, i, imageUrls, dir, fetch);
      failed, downloadedFiles := SavePage(items[i], imageUrls[items[i]], dir, fetch, failed, downloadedFiles);
      i := i + 1;
    }
    assert items[..i] == items;
  }

  /**
   * One pass of the sequential loop: a page that downloads appends its file, one that fails
   * appends its number unless it is already listed.
   */
  method SavePage(page: nat, url: string, dir: string, fetch: string -> bool, failed: seq<nat>, downloadedFiles: seq<string>)
    returns (failed': seq<nat>, downloadedFiles': seq<string>)
    ensures Downloads(url, fetch) ==> failed' == failed && downloadedFiles' == downloadedFiles + [FilePath(dir, page, url)]
    ensures !Downloads(url, fetch) ==>
      downloadedFiles' == downloadedFiles && failed' == failed + if page in failed then [] else [page]
  {
    failed', downloadedFiles' := failed, downloadedFiles;
    if |Split(url, '/')| <= 2 || !fetch(url) {
      if page !in failed {
        failed' := failed + [page];
      }
    } else {
      var ext := SplitExt(url).1;
      if ext == [] {
        ext := DefaultExtension;
      }
      var filepath := PathJoin(dir, Pad3(page) + ext);
      downloadedFiles' := downloadedFiles + [filepath];
    }
  }

  /**
   * The sequential `download_manga`: the pages go to `manga_<id>` under the working directory.
   * An id that cannot be extracted, or no page found, gives `(None, [])`.
   */
  method DownloadMangaSequential(url: string, cwd: string, imageUrls: map<nat, string>, fetch: string -> bool)
    returns (folder: Option<string>, failed: seq<nat>, downloadedFiles: seq<string>)
    ensures ExtractMangaId(url).Err? || imageUrls == map[] ==> folder.None? && failed == [] && downloadedFiles == []
    ensures ExtractMangaId(url).Ok? && imageUrls != map[] ==>
      && folder == Some(PathJoin(cwd, "manga_" + ExtractMangaId(url).value))
      && failed == FailuresInOrder(SortedPages(imageUrls.Keys), imageUrls, fetch)
      && downloadedFiles == SavedInOrder(SortedPages(imageUrls.Keys), imageUrls, folder.value, fetch)
  {
    var id := ExtractMangaId(url);
    if id.Err? {
      return None, [], [];
    }
    var dir := PathJoin(cwd, "manga_" + id.value);
    if imageUrls == map[] {
      return None, [], [];
    }
    failed, downloadedFiles := SavePagesInOrder(imageUrls, dir, fetch);
    folder := Some(dir);
  }
}
