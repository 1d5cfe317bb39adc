/**
 * The author front end: the search over result pages, the gallery links of one listing page,
 * the numbered list shown to the user and the parsing of the user's selection.
 *
 * The site is abstracted as oracles: `get(url)` is the parsed results page (`None` when the GET
 * fails or answers an error status), `head(url)` whether a HEAD of `url` answers 200.
 */
module AuthorSearch {
  import opened Wrappers
  import opened Text
  import opened Decimal
  import opened Ordering
  import opened Identifiers

  /** No value appears twice. */
  predicate Distinct<T(==)>(xs: seq<T>) {
    forall i, j :: 0 <= i < j < |xs| ==> xs[i] != xs[j]
  }

  // ----- get_total_pages -----

  /** The largest value among the all-digit texts, if there is one. */
  function MaxPageNumber(texts: seq<string>): (m: Option<nat>)
    ensures m.None? <==> forall k :: 0 <= k < |texts| ==> !IsDigitString(texts[k])
    ensures m.Some? ==> exists k :: 0 <= k < |texts| && IsDigitString(texts[k]) && m.value == Value(texts[k])
    ensures m.Some? ==> forall k :: 0 <= k < |texts| && IsDigitString(texts[k]) ==> Value(texts[k]) <= m.value
    decreases |texts|
  {
    if |texts| == 0 then None
    else
      var init, last := texts[..|texts| - 1], texts[|texts| - 1];
      assert forall k :: 0 <= k < |init| ==> init[k] == texts[k];
      var m := MaxPageNumber(init);
      if !IsDigitString(last) then m
      else if m.None? || m.value < Value(last) then Some(Value(last))
      else m
  }

  /**
   * `get_total_pages`: the largest all-digit text among the `a.page` links of the pagination
   * block (`None` when the page has none), and 1 when there is no such text.
   */
  function GetTotalPages(pagination: Option<seq<string>>): (last: nat)
    ensures pagination.None? ==> last == 1
    ensures pagination.Some? && (forall k :: 0 <= k < |pagination.value| ==> !IsDigitString(pagination.value[k])) ==> last == 1
    ensures pagination.Some? && (exists k :: 0 <= k < |pagination.value| && IsDigitString(pagination.value[k])) ==>
      && (exists k :: 0 <= k < |pagination.value| && IsDigitString(pagination.value[k]) && last == Value(pagination.value[k]))
      && (forall k :: 0 <= k < |pagination.value| && IsDigitString(pagination.value[k]) ==> Value(pagination.value[k]) <= last)
  {
    match pagination
    case None => 1
    case Some(texts) =>
      match MaxPageNumber(texts)
      case None => 1
      case Some(m) => m
  }

  // ----- search_author -----

  const SiteRoot: string := "https://nhentai.xxx"
  const SearchBase: string := "https://nhentai.xxx/search/?key="

  /** The URL of results page `page`: the first page has no `&page=` part. */
  function PageUrl(author: string, page: nat): (url: string)
    ensures page != 1 ==> url == HeadUrl(author, page)
  {
    if page == 1 then SearchBase + author else SearchBase + author + "&page=" + Str(page)
  }

  /** The URL the HEAD request tests before moving to page `page`. */
  function HeadUrl(author: string, page: nat): (url: string) {
    SearchBase + author + "&page=" + Str(page)
  }

  function MangaUrl(href: string): string {
    SiteRoot + href
  }

  /**
   * A results page as the search reads it: the `href` of the first link of each `gallery_item`
   * (`None` when it has no link or the link no `href`), and whether any kind of pagination
   * (the pagination block, a numbered link, a "next" or `>` link) was found.
   */
  datatype ResultsPage = ResultsPage(hrefs: seq<Option<string>>, paginated: bool)

  /** The URLs of a list of `(url, page)` results. */
  function Urls(links: seq<(string, nat)>): (us: seq<string>)
    ensures |us| == |links| && forall k :: 0 <= k < |links| ==> us[k] == links[k].0
  {
    seq(|links|, k requires 0 <= k < |links| => links[k].0)
  }

  /** A URL is on the list of `hrefs`. */
  predicate Lists(hrefs: seq<Option<string>>, u: string) {
    exists k :: 0 <= k < |hrefs| && hrefs[k].Some? && u == MangaUrl(hrefs[k].value)
  }

  /**
   * The gallery loop of one results page: each link whose URL is not yet among the results is
   * appended with the current page number.
   */
  function AddNew(links: seq<(string, nat)>, hrefs: seq<Option<string>>, page: nat): (r: seq<(string, nat)>)
    ensures |links| <= |r| && r[..|links|] == links
    ensures forall k :: |links| <= k < |r| ==> r[k].1 == page
    decreases |hrefs|
  {
    if |hrefs| == 0 then links
    else
      var prev := AddNew(links, hrefs[..|hrefs| - 1], page);
      var h := hrefs[|hrefs| - 1];
      if h.Some? && MangaUrl(h.value) !in Urls(prev) then prev + [(MangaUrl(h.value), page)] else prev
  }

  /**
   * The results after one page hold the earlier ones and every URL the page lists; each URL
   * added is listed on the page and was not found before.
   */
  lemma {:induction false} AddNewMembers(links: seq<(string, nat)>, hrefs: seq<Option<string>>, page: nat)
    ensures forall u :: u in Urls(AddNew(links, hrefs, page)) <==> u in Urls(links) || Lists(hrefs, u)
    ensures forall k :: |links| <= k < |AddNew(links, hrefs, page)| ==>
      Lists(hrefs, AddNew(links, hrefs, page)[k].0) && AddNew(links, hrefs, page)[k].0 !in Urls(links)
    decreases |hrefs|
  {
    if |hrefs| > 0 {
      var init, h := hrefs[..|hrefs| - 1], hrefs[|hrefs| - 1];
      var prev := AddNew(links, init, page);
      AddNewMembers(links, init, page);
      assert forall k :: 0 <= k < |init| ==> init[k] == hrefs[k];
      assert forall u :: Lists(init, u) ==> Lists(hrefs, u);
      assert h.Some? ==> Lists(hrefs, MangaUrl(h.value));
      assert forall u :: Lists(hrefs, u) ==> Lists(init, u) || (h.Some? && u == MangaUrl(h.value));
      if h.Some? && MangaUrl(h.value) !in Urls(prev) {
        var r := prev + [(MangaUrl(h.value), page)];
        assert Urls(r) == Urls(prev) + [MangaUrl(h.value)];
        assert MangaUrl(h.value) !in Urls(links);
        assert forall k :: |links| <= k < |prev| ==> r[k] == prev[k];
      } else {
        assert AddNew(links, hrefs, page) == prev;
        assert forall k :: |links| <= k < |prev| ==> Lists(init, prev[k].0) && Lists(hrefs, prev[k].0);
      }
    }
  }

  /** A page listing only URLs already found adds nothing. */
  lemma {:induction false} AddNewNothingNew(links: seq<(string, nat)>, hrefs: seq<Option<string>>, page: nat)
    requires forall u :: Lists(hrefs, u) ==> u in Urls(links)
    ensures AddNew(links, hrefs, page) == links
    decreases |hrefs|
  {
    if |hrefs| > 0 {
      var init, h := hrefs[..|hrefs| - 1], hrefs[|hrefs| - 1];
      assert forall k :: 0 <= k < |init| ==> init[k] == hrefs[k];
      assert forall u :: Lists(init, u) ==> Lists(hrefs, u);
      AddNewNothingNew(links, init, page);
      assert h.Some? ==> Lists(hrefs, MangaUrl(h.value));
    }
  }

  /** Appending only URLs not yet present keeps the results free of repeats. */
  lemma {:induction false} AddNewDistinct(links: seq<(string, nat)>, hrefs: seq<Option<string>>, page: nat)
    requires Distinct(Urls(links))
    ensures Distinct(Urls(AddNew(links, hrefs, page)))
    decreases |hrefs|
  {
    if |hrefs| > 0 {
      var init, h := hrefs[..|hrefs| - 1], hrefs[|hrefs| - 1];
      var prev := AddNew(links, init, page);
      AddNewDistinct(links, init, page);
      if h.Some? && MangaUrl(h.value) !in Urls(prev) {
        var r := prev + [(MangaUrl(h.value), page)];
        assert Urls(r) == Urls(prev) + [MangaUrl(h.value)];
      }
    }
  }

  /** The gallery links of results page `page`, none when it did not load. */
  function PageHrefs(author: string, get: string -> Option<ResultsPage>, page: nat): seq<Option<string>> {
    match get(PageUrl(author, page))
    case None => []
    case Some(results) => results.hrefs
  }

  /** `manga_links` after results pages 1 to `n`. */
  function Accumulated(author: string, get: string -> Option<ResultsPage>, n: nat): (links: seq<(string, nat)>)
    decreases n
  {
    if n == 0 then [] else AddNew(Accumulated(author, get, n - 1), PageHrefs(author, get, n), n)
  }

  /**
   * The search goes on past page `p`: the page loaded, added at least one new URL, shows
   * pagination, and the HEAD of page `p + 1` answers 200.
   */
  predicate Continues(author: string, get: string -> Option<ResultsPage>, head: string -> bool, p: nat)
    requires p >= 1
  {
    && get(PageUrl(author, p)).Some?
    && |Accumulated(author, get, p)| > |Accumulated(author, get, p - 1)|
    && get(PageUrl(author, p)).value.paginated
    && head(HeadUrl(author, p + 1))
  }

  /** The search stops at page `s`: it went on past every earlier page and not past this one. */
  ghost predicate SearchStopsAt(author: string, get: string -> Option<ResultsPage>, head: string -> bool, s: nat) {
    s >= 1 && !Continues(author, get, head, s) && forall p :: 1 <= p < s ==> Continues(author, get, head, p)
  }

  /** A search stops at one page at most. */
  lemma SearchStopsAtUnique(author: string, get: string -> Option<ResultsPage>, head: string -> bool, s1: nat, s2: nat)
    requires SearchStopsAt(author, get, head, s1) && SearchStopsAt(author, get, head, s2)
    ensures s1 == s2
  {
  }

  /** Every result carries a page between 1 and `n`, and the pages never go down. */
  lemma {:induction false} AccumulatedPages(author: string, get: string -> Option<ResultsPage>, n: nat)
    ensures forall k :: 0 <= k < |Accumulated(author, get, n)| ==> 1 <= Accumulated(author, get, n)[k].1 <= n
    ensures forall i, j :: 0 <= i < j < |Accumulated(author, get, n)| ==>
      Accumulated(author, get, n)[i].1 <= Accumulated(author, get, n)[j].1
  {
    if n > 0 {
      AccumulatedPages(author, get, n - 1);
      var prev, links := Accumulated(author, get, n - 1), Accumulated(author, get, n);
      assert links == AddNew(prev, PageHrefs(author, get, n), n);
      assert forall k :: 0 <= k < |prev| ==> links[k] == prev[k] by {
        assert links[..|prev|] == prev;
      }
      assert forall k :: |prev| <= k < |links| ==> links[k].1 == n;
      assert forall k :: 0 <= k < |prev| ==> 1 <= prev[k].1 <= n - 1;
      assert forall k :: 0 <= k < |links| ==> 1 <= links[k].1 <= n;
      assert forall i, j :: 0 <= i < j < |links| ==> links[i].1 <= links[j].1;
    }
  }

  /** No manga URL appears twice among the results. */
  lemma {:induction false} AccumulatedDistinct(author: string, get: string -> Option<ResultsPage>, n: nat)
    ensures Distinct(Urls(Accumulated(author, get, n)))
  {
    if n > 0 {
      AccumulatedDistinct(author, get, n - 1);
      AddNewDistinct(Accumulated(author, get, n - 1), PageHrefs(author, get, n), n);
    }
  }

  /** Every gallery link of pages 1 to `n` is among the results. */
  lemma {:induction false} AccumulatedComplete(author: string, get: string -> Option<ResultsPage>, n: nat, p: nat, u: string)
    requires 1 <= p <= n && Lists(PageHrefs(author, get, p), u)
    ensures u in Urls(Accumulated(author, get, n))
  {
    if p < n {
      AccumulatedComplete(author, get, n - 1, p, u);
    }
    AddNewMembers(Accumulated(author, get, n - 1), PageHrefs(author, get, n), n);
  }

  /** Each result is tagged with the first page that lists it. */
  lemma {:induction false} AccumulatedFirstSeen(author: string, get: string -> Option<ResultsPage>, n: nat, k: nat)
    requires k < |Accumulated(author, get, n)|
    ensures var (u, page) := Accumulated(author, get, n)[k];
      Lists(PageHrefs(author, get, page), u) && forall q :: 1 <= q < page ==> !Lists(PageHrefs(author, get, q), u)
  {
    var prev, links := Accumulated(author, get, n - 1), Accumulated(author, get, n);
    assert n > 0;
    assert links == AddNew(prev, PageHrefs(author, get, n), n);
    AddNewMembers(prev, PageHrefs(author, get, n), n);
    if k < |prev| {
      assert links[k] == prev[k] by {
        assert links[..|prev|] == prev;
      }
      AccumulatedFirstSeen(author, get, n - 1, k);
    } else {
      var u := links[k].0;
      assert links[k].1 == n && u !in Urls(prev);
      forall q | 1 <= q < n ensures !Lists(PageHrefs(author, get, q), u) {
        if Lists(PageHrefs(author, get, q), u) {
          AccumulatedComplete(author, get, n - 1, q, u);
        }
      }
    }
  }

  /** A page that lists only URLs found before adds nothing, and the search stops there. */
  lemma DuplicatePageStops(author: string, get: string -> Option<ResultsPage>, head: string -> bool, p: nat)
    requires p >= 1
    requires forall u :: Lists(PageHrefs(author, get, p), u) ==> u in Urls(Accumulated(author, get, p - 1))
    ensures Accumulated(author, get, p) == Accumulated(author, get, p - 1)
    ensures !Continues(author, get, head, p)
  {
    var prev, links := Accumulated(author, get, p - 1), Accumulated(author, get, p);
    assert links == AddNew(prev, PageHrefs(author, get, p), p);
    AddNewNothingNew(prev, PageHrefs(author, get, p), p);
  }

  /** The results loop of one page: the source's `for gallery in galleries`. */
  method ScanGalleries(links: seq<(string, nat)>, hrefs: seq<Option<string>>, page: nat)
    returns (r: seq<(string, nat)>, found: bool)
    ensures r == AddNew(links, hrefs, page)
    ensures found <==> |r| > |links|
  {
    r, found := links, false;
    var i := 0;
    while i < |hrefs|
      invariant 0 <= i <= |hrefs|
      invariant r == AddNew(links, hrefs[..i], page)
      invariant found <==> |r| > |links|
    {
      assert hrefs[..i + 1][..i] == hrefs[..i];
      var href := hrefs[i];
      if href.Some? {
        var mangaUrl := MangaUrl(href.value);
        if mangaUrl !in Urls(r) {
          r := r + [(mangaUrl, page)];
          found := true;
        }
      }
      i := i + 1;
    }
    assert hrefs[..i] == hrefs;
  }

  /**
   * One pass of the loop of `search_author`: load results page `page`, add its new URLs, and
   * decide whether the search goes on to the next page.
   */
  method SearchPage(author: string, get: string -> Option<ResultsPage>, head: string -> bool, page: nat,
                    links: seq<(string, nat)>)
    returns (mangaLinks: seq<(string, nat)>, continueSearch: bool)
    requires page >= 1 && links == Accumulated(author, get, page - 1)
    ensures mangaLinks == Accumulated(author, get, page)
    ensures continueSearch <==> Continues(author, get, head, page)
  {
    var pageUrl := if page == 1 then SearchBase + author else SearchBase + author + "&page=" + Str(page);
    assert pageUrl == PageUrl(author, page);
    var response := get(pageUrl);
    assert Accumulated(author, get, page) == AddNew(links, PageHrefs(author, get, page), page);
    if response.None? {
      assert AddNew(links, [], page) == links;
      return links, false;
    }
    var found;
    mangaLinks, found := ScanGalleries(links, response.value.hrefs, page);
    if !found {
      return mangaLinks, false;
    }
    if response.value.paginated {
      var nextPage := page + 1;
      var nextUrl := SearchBase + author + "&page=" + Str(nextPage);
      assert nextUrl == HeadUrl(author, nextPage);
      if head(nextUrl) {
        return mangaLinks, true;
      }
    }
    return mangaLinks, false;
  }

  /**
   * `search_author`: scan results pages from 1, stopping when a page fails to load, adds no new
   * URL, shows no pagination, or the next page does not answer. No page beyond `lastPage`
   * answers, which bounds the search.
   */
  method SearchAuthor(author: string, get: string -> Option<ResultsPage>, head: string -> bool, ghost lastPage: nat)
    returns (mangaLinks: seq<(string, nat)>, stop: nat)
    requires forall p: nat :: p > lastPage ==> !head(HeadUrl(author, p))
    ensures SearchStopsAt(author, get, head, stop)
    ensures mangaLinks == Accumulated(author, get, stop)
  {
    mangaLinks := [];
    var currentPage := 1;
    while true
      invariant 1 <= currentPage <= lastPage + 1
      invariant forall p :: 1 <= p < currentPage ==> Continues(author, get, head, p)
      invariant mangaLinks == Accumulated(author, get, currentPage - 1)
      decreases lastPage + 1 - currentPage
    {
      var continueSearch;
      mangaLinks, continueSearch := SearchPage(author, get, head, currentPage, mangaLinks);
      if !continueSearch {
        stop := currentPage;
        return;
      }
      currentPage := currentPage + 1;
    }
  }

  // ----- get_page_manga_urls -----

  /** The links `find_all('a', href=re.compile(r'/g/\d+'))` keeps: an `href` with `/g/` and a digit. */
  predicate IsGalleryHref(href: Option<string>) {
    href.Some? && GalleryIdMatch(href.value).Some?
  }

  /** The gallery URLs of a page's links, repeats included. */
  function GalleryUrls(anchors: seq<Option<string>>): (urls: seq<string>)
    ensures forall u :: u in urls <==> exists k :: 0 <= k < |anchors| && IsGalleryHref(anchors[k]) && u == MangaUrl(anchors[k].value)
    decreases |anchors|
  {
    if |anchors| == 0 then []
    else
      var init, a := anchors[..|anchors| - 1], anchors[|anchors| - 1];
      assert forall k :: 0 <= k < |init| ==> init[k] == anchors[k];
      var rest := GalleryUrls(init);
      if IsGalleryHref(a) then rest + [MangaUrl(a.value)] else rest
  }

  /** `xs` without repeats, each value kept where it first occurs. */
  function Unique(xs: seq<string>): (r: seq<string>)
    ensures Distinct(r)
    ensures forall x :: x in r <==> x in xs
    decreases |xs|
  {
    if |xs| == 0 then []
    else
      var init, x := xs[..|xs| - 1], xs[|xs| - 1];
      assert forall y :: y in xs <==> y in init || y == x;
      var rest := Unique(init);
      if x in rest then rest else rest + [x]
  }

  /** The position of the first occurrence of `x` in `xs`. */
  function IndexOf(xs: seq<string>, x: string): (i: nat)
    requires x in xs
    ensures i < |xs| && xs[i] == x && forall j :: 0 <= j < i ==> xs[j] != x
  {
    if xs[0] == x then 0 else 1 + IndexOf(xs[1..], x)
  }

  lemma {:induction false} IndexOfPrefix(xs: seq<string>, y: string, x: string)
    requires x in xs
    ensures IndexOf(xs + [y], x) == IndexOf(xs, x)
  {
    var i := IndexOf(xs, x);
    var j := IndexOf(xs + [y], x);
    assert (xs + [y])[i] == x;
    assert j <= i;
    assert xs[j] == (xs + [y])[j];
  }

  /** `Unique` keeps first-occurrence order: a value listed earlier first occurred earlier. */
  lemma {:induction false} UniqueKeepsFirstOccurrenceOrder(xs: seq<string>)
    ensures forall i, j :: 0 <= i < j < |Unique(xs)| ==> IndexOf(xs, Unique(xs)[i]) < IndexOf(xs, Unique(xs)[j])
    decreases |xs|
  {
    if |xs| > 0 {
      var init, x := xs[..|xs| - 1], xs[|xs| - 1];
      assert xs == init + [x];
      var rest := Unique(init);
      UniqueKeepsFirstOccurrenceOrder(init);
      forall y | y in rest ensures IndexOf(xs, y) == IndexOf(init, y) && IndexOf(xs, y) < |init| {
        IndexOfPrefix(init, x, y);
      }
      if x !in rest {
        assert x !in init;
        assert IndexOf(xs, x) == |init|;
        assert forall k :: 0 <= k < |rest| ==> rest[k] in rest;
      }
    }
  }

  /** `get_page_manga_urls`: the gallery URLs of the page in order, each kept the first time it appears. */
  method GetPageMangaUrls(anchors: seq<Option<string>>) returns (mangaLinks: seq<string>)
    ensures mangaLinks == Unique(GalleryUrls(anchors))
  {
    mangaLinks := [];
    var i := 0;
    while i < |anchors|
      invariant 0 <= i <= |anchors|
      invariant mangaLinks == Unique(GalleryUrls(anchors[..i]))
    {
      assert anchors[..i + 1][..i] == anchors[..i];
      ghost var urls := GalleryUrls(anchors[..i]);
      if IsGalleryHref(anchors[i]) {
        var mangaUrl := MangaUrl(anchors[i].value);
        assert GalleryUrls(anchors[..i + 1]) == urls + [mangaUrl];
        assert (urls + [mangaUrl])[..|urls|] == urls;
        if mangaUrl !in mangaLinks {
          mangaLinks := mangaLinks + [mangaUrl];
        }
      }
      i := i + 1;
    }
    assert anchors[..i] == anchors;
  }

  // ----- the numbered list of `main` -----

  /** The URLs of `data` found on page `page`, in their order: `manga_by_page[page]`. */
  function PageGroup(data: seq<(string, nat)>, page: nat): (group: seq<string>)
    ensures |group| <= |data|
    decreases |data|
  {
    if |data| == 0 then []
    else
      var rest := PageGroup(data[..|data| - 1], page);
      if data[|data| - 1].1 == page then rest + [data[|data| - 1].0] else rest
  }

  /** The page numbers that occur in `data`: the keys of `manga_by_page`. */
  function PagesOf(data: seq<(string, nat)>): (pages: set<nat>)
    ensures forall p :: p in pages <==> exists k :: 0 <= k < |data| && data[k].1 == p
  {
    set k | 0 <= k < |data| :: data[k].1
  }

  /** The groups of `pages`, one after the other. */
  function Listing(data: seq<(string, nat)>, pages: seq<nat>): seq<string>
    decreases |pages|
  {
    if |pages| == 0 then [] else Listing(data, pages[..|pages| - 1]) + PageGroup(data, pages[|pages| - 1])
  }

  /** A page with no result has an empty group. */
  lemma {:induction false} PageGroupAbsent(data: seq<(string, nat)>, page: nat)
    requires forall k :: 0 <= k < |data| ==> data[k].1 != page
    ensures PageGroup(data, page) == []
    decreases |data|
  {
    if |data| > 0 {
      var init := data[..|data| - 1];
      assert forall k :: 0 <= k < |init| ==> init[k] == data[k];
      PageGroupAbsent(init, page);
    }
  }

  lemma PageGroupSnoc(data: seq<(string, nat)>, x: (string, nat), page: nat)
    ensures PageGroup(data + [x], page) == PageGroup(data, page) + if x.1 == page then [x.0] else []
  {
    assert (data + [x])[..|data|] == data;
  }

  /** Dropping the last of several distinct pages leaves distinct pages without it. */
  lemma DistinctInit(pages: seq<nat>)
    requires |pages| > 0 && Distinct(pages)
    ensures Distinct(pages[..|pages| - 1])
    ensures pages[|pages| - 1] !in pages[..|pages| - 1]
  {
    assert forall k :: 0 <= k < |pages| - 1 ==> pages[..|pages| - 1][k] == pages[k];
  }

  /** A result on a page that is not listed leaves the listing as it was. */
  lemma {:induction false} ListingSnocUnlisted(data: seq<(string, nat)>, x: (string, nat), pages: seq<nat>)
    requires x.1 !in pages
    ensures Listing(data + [x], pages) == Listing(data, pages)
    decreases |pages|
  {
    if |pages| > 0 {
      var init := pages[..|pages| - 1];
      assert x.1 !in init by {
        assert forall k :: 0 <= k < |init| ==> init[k] == pages[k];
      }
      ListingSnocUnlisted(data, x, init);
      PageGroupSnoc(data, x, pages[|pages| - 1]);
    }
  }

  /** One more result on a listed page adds its URL once to the listing; on another page, nothing. */
  lemma {:induction false} ListingSnoc(data: seq<(string, nat)>, x: (string, nat), pages: seq<nat>)
    requires Distinct(pages)
    ensures multiset(Listing(data + [x], pages))
      == multiset(Listing(data, pages)) + if x.1 in pages then multiset{x.0} else multiset{}
    decreases |pages|
  {
    if |pages| > 0 {
      var init, last := pages[..|pages| - 1], pages[|pages| - 1];
      DistinctInit(pages);
      assert x.1 in pages <==> x.1 in init || x.1 == last;
      ListingSnoc(data, x, init);
      PageGroupSnoc(data, x, last);
    }
  }

  /** Listing every page that occurs, once each, lists every result once: a permutation. */
  lemma {:induction false} ListingPermutes(data: seq<(string, nat)>, pages: seq<nat>)
    requires Distinct(pages)
    requires forall k :: 0 <= k < |data| ==> data[k].1 in pages
    ensures multiset(Listing(data, pages)) == multiset(Urls(data))
    decreases |data|
  {
    if |data| == 0 {
      ListingEmpty(pages);
    } else {
      var init, x := data[..|data| - 1], data[|data| - 1];
      assert data == init + [x];
      assert forall k :: 0 <= k < |init| ==> init[k] == data[k];
      ListingPermutes(init, pages);
      ListingSnoc(init, x, pages);
      assert Urls(data) == Urls(init) + [x.0];
    }
  }

  lemma {:induction false} ListingEmpty(pages: seq<nat>)
    ensures Listing([], pages) == []
    decreases |pages|
  {
    if |pages| > 0 {
      ListingEmpty(pages[..|pages| - 1]);
    }
  }

  /** Pages in ascending order, no page repeated. */
  predicate Ascending(pages: seq<nat>) {
    forall i, j :: 0 <= i < j < |pages| ==> pages[i] < pages[j]
  }

  /** Dropping the last of ascending pages leaves ascending pages, all below it. */
  lemma AscendingInit(pages: seq<nat>, init: seq<nat>, last: nat)
    requires Ascending(pages) && pages == init + [last]
    ensures Ascending(init)
    ensures forall y :: y in init ==> y < last
    ensures forall y :: y in pages && y != last ==> y in init
  {
    assert forall k :: 0 <= k < |init| ==> init[k] == pages[k] && pages[k] < pages[|init|];
    forall y | y in init ensures y < last {
      var k :| 0 <= k < |init| && init[k] == y;
    }
    forall y | y in pages && y != last ensures y in init {
      var k :| 0 <= k < |pages| && pages[k] == y;
      assert init[k] == y;
    }
  }

  /**
   * A result on the highest page so far goes to the end of the listing when the pages are
   * listed in ascending order.
   */
  lemma {:induction false} ListingSnocLast(data: seq<(string, nat)>, x: (string, nat), pages: seq<nat>)
    requires Ascending(pages) && x.1 in pages
    requires forall k :: 0 <= k < |data| ==> data[k].1 <= x.1
    ensures Listing(data + [x], pages) == Listing(data, pages) + [x.0]
    decreases |pages|
  {
    var init, last := pages[..|pages| - 1], pages[|pages| - 1];
    assert pages == init + [last];
    AscendingInit(pages, init, last);
    PageGroupSnoc(data, x, last);
    assert Listing(data + [x], pages) == Listing(data + [x], init) + PageGroup(data + [x], last);
    assert Listing(data, pages) == Listing(data, init) + PageGroup(data, last);
    if x.1 == last {
      ListingSnocUnlisted(data, x, init);
    } else {
      assert x.1 in init;
      ListingSnocLast(data, x, init);
      PageGroupAbsent(data, last);
    }
  }

  /** Results whose pages never go down are listed in their own order. */
  lemma {:induction false} ListingOfOrderedData(data: seq<(string, nat)>, pages: seq<nat>)
    requires Ascending(pages)
    requires forall k :: 0 <= k < |data| ==> data[k].1 in pages
    requires forall i, j :: 0 <= i < j < |data| ==> data[i].1 <= data[j].1
    ensures Listing(data, pages) == Urls(data)
    decreases |data|
  {
    if |data| == 0 {
      ListingEmpty(pages);
    } else {
      var init, x := data[..|data| - 1], data[|data| - 1];
      assert data == init + [x];
      assert forall k :: 0 <= k < |init| ==> init[k] == data[k];
      ListingOfOrderedData(init, pages);
      ListingSnocLast(init, x, pages);
      assert Urls(data) == Urls(init) + [x.0];
    }
  }

  /** The numbered list holds each search result once: it is a permutation of their URLs. */
  lemma GroupingPermutes(data: seq<(string, nat)>)
    ensures multiset(Listing(data, SortedPages(PagesOf(data)))) == multiset(Urls(data))
  {
    var pages := SortedPages(PagesOf(data));
    assert forall k :: 0 <= k < |data| ==> data[k].1 in PagesOf(data);
    ListingPermutes(data, pages);
  }

  /** When the pages never go down, the numbered list is the results' own order. */
  lemma GroupingKeepsOrder(data: seq<(string, nat)>)
    requires forall i, j :: 0 <= i < j < |data| ==> data[i].1 <= data[j].1
    ensures Listing(data, SortedPages(PagesOf(data))) == Urls(data)
  {
    var pages := SortedPages(PagesOf(data));
    assert forall k :: 0 <= k < |data| ==> data[k].1 in PagesOf(data);
    ListingOfOrderedData(data, pages);
  }

  /** The results of a search are numbered in the order they were found. */
  lemma SearchResultsListedInOrder(author: string, get: string -> Option<ResultsPage>, n: nat)
    ensures var links := Accumulated(author, get, n);
      Listing(links, SortedPages(PagesOf(links))) == Urls(links)
  {
    AccumulatedPages(author, get, n);
    GroupingKeepsOrder(Accumulated(author, get, n));
  }

  lemma ListingStep(data: seq<(string, nat)>, pages: seq<nat>, j: nat)
    requires j < |pages|
    ensures Listing(data, pages[..j + 1]) == Listing(data, pages[..j]) + PageGroup(data, pages[j])
  {
    assert pages[..j + 1][..j] == pages[..j];
  }

  /** The first loop of the numbering in `main`: `manga_by_page`, the search results grouped by page. */
  method GroupByPage(mangaData: seq<(string, nat)>) returns (mangaByPage: map<nat, seq<string>>)
    ensures mangaByPage.Keys == PagesOf(mangaData)
    ensures forall p :: p in mangaByPage ==> mangaByPage[p] == PageGroup(mangaData, p)
  {
    mangaByPage := map[];
    var i := 0;
    while i < |mangaData|
      invariant 0 <= i <= |mangaData|
      invariant forall p :: p in mangaByPage <==> p in PagesOf(mangaData[..i])
      invariant forall p :: p in mangaByPage ==> mangaByPage[p] == PageGroup(mangaData[..i], p)
    {
      var (url, page) := mangaData[i];
      assert mangaData[..i + 1] == mangaData[..i] + [(url, page)];
      forall p ensures PageGroup(mangaData[..i + 1], p) == PageGroup(mangaData[..i], p) + if p == page then [url] else [] {
        PageGroupSnoc(mangaData[..i], (url, page), p);
      }
      if page !in mangaByPage {
        PageGroupAbsent(mangaData[..i], page);
        mangaByPage := mangaByPage[page := []];
      }
      mangaByPage := mangaByPage[page := mangaByPage[page] + [url]];
      i := i + 1;
    }
    assert mangaData[..i] == mangaData;
  }

  /**
   * The second loop of the numbering in `main`: the groups of `pages`, one after the other, each
   * appended URL by URL.
   */
  method ListGroups(mangaByPage: map<nat, seq<string>>, pages: seq<nat>, ghost mangaData: seq<(string, nat)>)
    returns (indexed: seq<string>)
    requires forall p :: p in pages ==> p in mangaByPage && mangaByPage[p] == PageGroup(mangaData, p)
    ensures indexed == Listing(mangaData, pages)
  {
    indexed := [];
    var j := 0;
    while j < |pages|
      invariant 0 <= j <= |pages|
      invariant indexed == Listing(mangaData, pages[..j])
    {
      var group := mangaByPage[pages[j]];
      var k := 0;
      while k < |group|
        invariant 0 <= k <= |group|
        invariant indexed == Listing(mangaData, pages[..j]) + group[..k]
      {
        assert group[..k + 1] == group[..k] + [group[k]];
        indexed := indexed + [group[k]];
        k := k + 1;
      }
      ListingStep(mangaData, pages, j);
      assert group[..k] == group;
      j := j + 1;
    }
    assert pages[..j] == pages;
  }

  /**
   * The numbering of `main`: the pages in ascending order, each with its URLs in the order they
   * were found.
   */
  method IndexManga(mangaData: seq<(string, nat)>) returns (indexed: seq<string>)
    ensures indexed == Listing(mangaData, SortedPages(PagesOf(mangaData)))
  {
    var mangaByPage := GroupByPage(mangaData);
    var pages := SortedPages(mangaByPage.Keys);
    indexed := ListGroups(mangaByPage, pages, mangaData);
  }

  /**
   * Menu choice 1: search the author and number the results; no result gives nothing. The list
   * is the search results in the order they were found.
   */
  method AuthorMangaList(author: string, get: string -> Option<ResultsPage>, head: string -> bool, ghost lastPage: nat)
    returns (indexed: Option<seq<string>>, stop: nat)
    requires forall p: nat :: p > lastPage ==> !head(HeadUrl(author, p))
    ensures SearchStopsAt(author, get, head, stop)
    ensures indexed.None? <==> Accumulated(author, get, stop) == []
    ensures indexed.Some? ==> indexed.value == Urls(Accumulated(author, get, stop))
  {
    var mangaData;
    mangaData, stop := SearchAuthor(author, get, head, lastPage);
    if mangaData == [] {
      return None, stop;
    }
    var list := IndexManga(mangaData);
    SearchResultsListedInOrder(author, get, stop);
    indexed := Some(list);
  }

  /** The prefix a listing page's URL must have. */
  const SitePrefix: string := "https://nhentai.xxx/"

  /** Why menu choice 2 ends the program: the page request raised (an error status or a network error). */
  datatype PageError = PageRequestFailed

  /**
   * Menu choice 2. The typed URL is stripped of surrounding whitespace; a URL off the site gives
   * nothing. Otherwise the page is fetched: `page` is its links, or `None` when the request
   * fails, which `main` does not catch. A page without gallery links gives nothing; otherwise
   * the result is its gallery URLs without repeats.
   */
  method PageMangaList(typedUrl: string, page: Option<seq<Option<string>>>)
    returns (indexed: Result<Option<seq<string>>, PageError>)
    ensures !StartsWith(Strip(typedUrl), SitePrefix) ==> indexed == Ok(None)
    ensures StartsWith(Strip(typedUrl), SitePrefix) && page.None? ==> indexed == Err(PageRequestFailed)
    ensures StartsWith(Strip(typedUrl), SitePrefix) && page.Some? ==>
      && indexed.Ok?
      && (indexed.value.None? <==> GalleryUrls(page.value) == [])
      && (indexed.value.Some? ==> indexed.value.value == Unique(GalleryUrls(page.value)))
  {
    var pageUrl := Strip(typedUrl);
    if !StartsWith(pageUrl, SitePrefix) {
      return Ok(None);
    }
    if page.None? {
      return Err(PageRequestFailed);
    }
    var mangaUrls := GetPageMangaUrls(page.value);
    if mangaUrls == [] {
      assert forall u :: u !in GalleryUrls(page.value);
      return Ok(None);
    }
    indexed := Ok(Some(mangaUrls));
  }

  // ----- the selection of `main` -----

  /** Each piece parsed by `parse` and less one, or `None` as soon as one piece does not parse. */
  function ParseEach(pieces: seq<string>, parse: string -> Option<int>): (r: Option<seq<int>>)
    ensures r.Some? ==> |r.value| == |pieces|
    decreases |pieces|
  {
    if |pieces| == 0 then Some([])
    else
      var rest := ParseEach(pieces[..|pieces| - 1], parse);
      var v := parse(pieces[|pieces| - 1]);
      if rest.None? || v.None? then None else Some(rest.value + [v.value - 1])
  }

  lemma {:induction false} ParseEachSpec(pieces: seq<string>, parse: string -> Option<int>)
    ensures ParseEach(pieces, parse).None? <==> exists k :: 0 <= k < |pieces| && parse(pieces[k]).None?
    ensures ParseEach(pieces, parse).Some? ==>
      forall k :: 0 <= k < |pieces| ==> ParseEach(pieces, parse).value[k] == parse(pieces[k]).value - 1
    decreases |pieces|
  {
    if |pieces| > 0 {
      var init := pieces[..|pieces| - 1];
      assert forall k :: 0 <= k < |init| ==> init[k] == pieces[k];
      ParseEachSpec(init, parse);
    }
  }

  /** `[int(x.strip()) - 1 for x in pieces]`, or `None` where Python raises `ValueError`. */
  function ParseIndices(pieces: seq<string>): (r: Option<seq<int>>)
    ensures r.None? <==> exists k :: 0 <= k < |pieces| && ParseInt(pieces[k]).None?
    ensures r.Some? ==> (|r.value| == |pieces|
      && forall k :: 0 <= k < |pieces| ==> r.value[k] == ParseInt(pieces[k]).value - 1)
  {
    ParseEachSpec(pieces, ParseInt);
    ParseEach(pieces, ParseInt)
  }

  /** The entries the in-range indices pick, in the given order. */
  function Picked(indexed: seq<string>, indices: seq<int>): (r: seq<string>)
    ensures |r| <= |indices|
    decreases |indices|
  {
    if |indices| == 0 then []
    else
      var rest := Picked(indexed, indices[..|indices| - 1]);
      var idx := indices[|indices| - 1];
      if 0 <= idx < |indexed| then rest + [indexed[idx]] else rest
  }

  /** Picking from two lists of indices one after the other is picking from their concatenation. */
  lemma {:induction false} PickedAppend(indexed: seq<string>, a: seq<int>, b: seq<int>)
    ensures Picked(indexed, a + b) == Picked(indexed, a) + Picked(indexed, b)
    decreases |b|
  {
    if |b| > 0 {
      var init := b[..|b| - 1];
      assert (a + b)[..|a + b| - 1] == a + init;
      PickedAppend(indexed, a, init);
    } else {
      assert a + b == a;
    }
  }

  /** One index picks its entry when it is in range and nothing otherwise (0 and negatives included). */
  lemma PickedOne(indexed: seq<string>, idx: int)
    ensures Picked(indexed, [idx]) == if 0 <= idx < |indexed| then [indexed[idx]] else []
  {
    assert [idx][..0] == [];
  }

  /** When every index is in range, the selection is exactly the indexed entries, repeats and order kept. */
  lemma {:induction false} PickedInRange(indexed: seq<string>, indices: seq<int>)
    requires forall k :: 0 <= k < |indices| ==> 0 <= indices[k] < |indexed|
    ensures |Picked(indexed, indices)| == |indices|
    ensures forall k :: 0 <= k < |indices| ==> Picked(indexed, indices)[k] == indexed[indices[k]]
    decreases |indices|
  {
    if |indices| > 0 {
      var init := indices[..|indices| - 1];
      PickedInRange(indexed, init);
    }
  }

  /**
   * The selection loop: the comma-separated numbers are read as 1-based positions; positions out
   * of range are skipped; any piece that is not an integer rejects the whole input.
   */
  method SelectManga(indexed: seq<string>, selections: string) returns (mangaToDownload: Option<seq<string>>)
    ensures ParseIndices(Split(Strip(selections), ',')).None? ==> mangaToDownload.None?
    ensures ParseIndices(Split(Strip(selections), ',')).Some? ==>
      mangaToDownload == Some(Picked(indexed, ParseIndices(Split(Strip(selections), ',')).value))
  {
    var parsed := ParseIndices(Split(Strip(selections), ','));
    if parsed.None? {
      return None;
    }
    var picked := PickAll(indexed, parsed.value);
    mangaToDownload := Some(picked);
  }

  /** The loop over the parsed indices: an entry is appended for each index in range. */
  method PickAll(indexed: seq<string>, indices: seq<int>) returns (picked: seq<string>)
    ensures picked == Picked(indexed, indices)
  {
    picked := [];
    var i := 0;
    while i < |indices|
      invariant 0 <= i <= |indices|
      invariant picked == Picked(indexed, indices[..i])
    {
      PickedStep(indexed, indices, i);
      var idx := indices[i];
      if 0 <= idx < |indexed| {
        picked := picked + [indexed[idx]];
      }
      i := i + 1;
    }
    assert indices[..i] == indices;
  }

  lemma PickedStep(indexed: seq<string>, indices: seq<int>, i: nat)
    requires i < |indices|
    ensures Picked(indexed, indices[..i + 1]) == Picked(indexed, indices[..i])
      + if 0 <= indices[i] < |indexed| then [indexed[indices[i]]] else []
  {
    assert indices[..i + 1][..i] == indices[..i];
  }

  /** A piece that is not a number rejects the whole selection: `1,x` gives nothing. */
  lemma RejectExample()
    ensures ParseIndices(Split("1,x", ',')).None?
  {
    SplitAtFirst("1", ',', "x");
    SplitWithoutSep("x", ',');
    assert "1,x" == "1" + [','] + "x";
    var q := Split("1,x", ',');
    assert q == ["1", "x"];
    assert ParseInt(q[1]).None?;
  }

  /**
   * The prompt's own example on a list of four: `1,3,5` picks the first and third entry and skips
   * the fifth, which is not there.
   */
  lemma SelectionExample(a: string, b: string, c: string, d: string)
    ensures Picked([a, b, c, d], [0, 2, 4]) == [a, c]
  {
    PickedAppend([a, b, c, d], [0, 2], [4]);
    PickedAppend([a, b, c, d], [0], [2]);
    PickedOne([a, b, c, d], 0);
    PickedOne([a, b, c, d], 2);
    PickedOne([a, b, c, d], 4);
    assert [0, 2, 4] == [0, 2] + [4] && [0, 2] == [0] + [2];
  }

  /**
   * The download menu: choice 1 takes every numbered manga, choice 2 the selection; any other
   * choice, a rejected selection or an empty one gives nothing to download.
   */
  method ChooseDownloads(indexed: seq<string>, downloadChoice: string, selections: string)
    returns (mangaToDownload: Option<seq<string>>)
    ensures Strip(downloadChoice) == "1" ==> (mangaToDownload.None? <==> indexed == [])
    ensures Strip(downloadChoice) == "1" && indexed != [] ==> mangaToDownload == Some(indexed)
    ensures Strip(downloadChoice) == "2" ==> var parsed := ParseIndices(Split(Strip(selections), ','));
      && (mangaToDownload.None? <==> parsed.None? || Picked(indexed, parsed.value) == [])
      && (mangaToDownload.Some? ==> mangaToDownload.value == Picked(indexed, parsed.value))
    ensures Strip(downloadChoice) != "1" && Strip(downloadChoice) != "2" ==> mangaToDownload.None?
    ensures mangaToDownload.Some? ==> mangaToDownload.value != []
  {
    var choice := Strip(downloadChoice);
    var selected: seq<string>;
    if choice == "1" {
      selected := indexed;
    } else if choice == "2" {
      var parsed := SelectManga(indexed, selections);
      if parsed.None? {
        return None;
      }
      selected := parsed.value;
    } else {
      return None;
    }
    if selected == [] {
      return None;
    }
    mangaToDownload := Some(selected);
  }
}
