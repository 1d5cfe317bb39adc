/**
 * Page discovery: pages are tried in order from 1 and the search gives up after five
 * consecutive pages with no image. The sequential downloader resolves each page over all
 * servers; the asynchronous one first picks a working server from pages 1-5 and then asks only
 * that server. Both wrap the search in `fetch_manga_images`, which reads the gallery page's
 * thumbnails, chooses the template and turns every failure into an empty result.
 *
 * The page sequence is abstracted as `hit`: the URL found for page `p`, or `None`.
 */
module Discovery {
  import opened Wrappers
  import opened Decimal
  import opened Template
  import opened Resolver

  /** Pages `p - 4` to `p` all miss: five consecutive failures end at `p`. */
  ghost predicate MissRun(hit: nat -> Option<string>, p: nat) {
    p >= 5 && forall q: nat :: p - 4 <= q <= p ==> hit(q).None?
  }

  /** The search stops at page `s`: the first page that ends a run of five misses. */
  ghost predicate StopsAt(hit: nat -> Option<string>, s: nat)
    ensures StopsAt(hit, s) ==> s >= 5 && hit(s).None?
  {
    MissRun(hit, s) && forall p: nat :: 5 <= p < s ==> !MissRun(hit, p)
  }

  /** `image_urls` once the search has passed every page below `s`: page number to URL. */
  ghost function Collected(hit: nat -> Option<string>, s: nat): (m: map<nat, string>)
    ensures forall p :: p in m <==> 1 <= p < s && hit(p).Some?
    ensures forall p :: p in m ==> m[p] == hit(p).value
  {
    map p: nat | 1 <= p < s && hit(p).Some? :: hit(p).value
  }

  /** The page sequence of the sequential downloader: every server is tried for each page. */
  function SequentialHit(t: ImagePattern, probe: string -> bool): (hit: nat -> Option<string>)
    ensures forall p: nat :: hit(p).Some? ==> probe(hit(p).value)
  {
    (p: nat) => PageResolution(t, p, probe)
  }

  /** The page sequence of the asynchronous downloader: only the working server is asked. */
  function AsyncHit(t: ImagePattern, server: string, probe: string -> bool): (hit: nat -> Option<string>)
    ensures forall p: nat :: hit(p).Some? ==> probe(hit(p).value)
  {
    (p: nat) => Verified(server, t, p, probe).url
  }

  /** A search stops at one page at most. */
  lemma StopsAtUnique(hit: nat -> Option<string>, s1: nat, s2: nat)
    requires StopsAt(hit, s1) && StopsAt(hit, s2)
    ensures s1 == s2
  {
  }

  /** With no hit beyond page `h`, the search stops at most five pages after `h`. */
  lemma {:induction false} StopWithinFive(hit: nat -> Option<string>, s: nat, h: nat)
    requires StopsAt(hit, s)
    requires forall p: nat :: p > h ==> hit(p).None?
    ensures s <= h + 5
  {
    if s > h + 5 {
      assert MissRun(hit, h + 5);
    }
  }

  /** Five misses at pages 1-5 end the search with nothing found. */
  lemma {:induction false} FirstFiveMiss(hit: nat -> Option<string>)
    requires forall p: nat :: 1 <= p <= 5 ==> hit(p).None?
    ensures StopsAt(hit, 5) && Collected(hit, 5) == map[]
  {
    assert MissRun(hit, 5);
  }

  /**
   * A gap of five pages hides every later page: with hits on pages 1, 2 and 8 the search stops
   * at page 7, and page 8 is never collected.
   */
  lemma {:induction false} GapHidesLaterPages(hit: nat -> Option<string>, u: string)
    requires hit(1) == Some(u) && hit(2) == Some(u) && hit(8) == Some(u)
    requires forall p: nat :: 3 <= p <= 7 ==> hit(p).None?
    ensures StopsAt(hit, 7)
    ensures Collected(hit, 7) == map[1 := u, 2 := u]
    ensures 8 !in Collected(hit, 7)
  {
    assert MissRun(hit, 7);
    assert !MissRun(hit, 5) by { assert hit(1).Some?; }
    assert !MissRun(hit, 6) by { assert hit(2).Some?; }
    var m := Collected(hit, 7);
    assert forall p :: p in m <==> p == 1 || p == 2;
  }

  /** The stop page and the collected URLs depend only on what each page answers. */
  lemma SameHitsSameSearch(hit1: nat -> Option<string>, hit2: nat -> Option<string>, s: nat)
    requires forall p: nat :: hit1(p) == hit2(p)
    ensures StopsAt(hit1, s) <==> StopsAt(hit2, s)
    ensures Collected(hit1, s) == Collected(hit2, s)
  {
    assert forall p: nat :: MissRun(hit1, p) <==> MissRun(hit2, p);
  }

  /**
   * The state of the search at the head of the loop: `misses` pages in a row have just failed,
   * the page before them (if any) succeeded, and no earlier page ended five failures.
   */
  ghost predicate Searching(hit: nat -> Option<string>, page: nat, misses: nat) {
    && 1 <= page && misses < 5 && misses <= page - 1
    && (forall q: nat :: page - misses <= q < page ==> hit(q).None?)
    && (page - 1 - misses >= 1 ==> hit(page - 1 - misses).Some?)
    && (forall p: nat :: 5 <= p < page ==> !MissRun(hit, p))
  }

  lemma SearchStart(hit: nat -> Option<string>)
    ensures Searching(hit, 1, 0)
  {
  }

  /** A page with an image resets the failure count. */
  lemma {:induction false} SearchHit(hit: nat -> Option<string>, page: nat, misses: nat)
    requires Searching(hit, page, misses) && hit(page).Some?
    ensures Searching(hit, page + 1, 0)
  {
    assert !MissRun(hit, page);
  }

  /** A page without an image either extends the run of failures or, as the fifth, stops. */
  lemma {:induction false} SearchMiss(hit: nat -> Option<string>, page: nat, misses: nat)
    requires Searching(hit, page, misses) && hit(page).None?
    ensures misses + 1 < 5 ==> Searching(hit, page + 1, misses + 1)
    ensures misses + 1 == 5 ==> StopsAt(hit, page)
  {
    if misses + 1 < 5 && page >= 5 {
      assert page - 1 - misses >= 1;
      assert hit(page - 1 - misses).Some?;
      assert !MissRun(hit, page);
    }
  }

  /** Adding one more page to the passed range adds its URL when it has one. */
  lemma CollectedStep(hit: nat -> Option<string>, s: nat)
    requires s >= 1
    ensures hit(s).Some? ==> Collected(hit, s + 1) == Collected(hit, s)[s := hit(s).value]
    ensures hit(s).None? ==> Collected(hit, s + 1) == Collected(hit, s)
  {
  }

  /**
   * A page whose number has more digits than any answering URL is long misses on every server:
   * every candidate spells the page number out.
   */
  lemma FarPageMisses(server: string, t: ImagePattern, page: nat, probe: string -> bool, maxLen: nat)
    requires forall u :: probe(u) ==> |u| <= maxLen
    requires page >= Pow10(maxLen)
    ensures Verified(server, t, page, probe).url.None?
  {
    StrLengthGrows(page, maxLen);
    forall j | 0 <= j < 12 ensures !probe(Candidates(server, t, page)[j]) {
      CandidateLength(server, t, page, j);
    }
  }

  /**
   * When no answering URL is longer than `maxLen`, the working server has no image beyond page
   * 10^maxLen: the asynchronous search is bound to stop.
   */
  lemma AsyncPagesBounded(server: string, t: ImagePattern, probe: string -> bool, maxLen: nat)
    requires forall u :: probe(u) ==> |u| <= maxLen
    ensures forall p: nat :: p > Pow10(maxLen) ==> Verified(server, t, p, probe).url.None?
  {
    forall p: nat | p > Pow10(maxLen) ensures Verified(server, t, p, probe).url.None? {
      FarPageMisses(server, t, p, probe, maxLen);
    }
  }

  /** The same bound for the sequential search, which asks every server. */
  lemma SequentialPagesBounded(t: ImagePattern, probe: string -> bool, maxLen: nat)
    requires forall u :: probe(u) ==> |u| <= maxLen
    ensures forall p: nat :: p > Pow10(maxLen) ==> PageResolution(t, p, probe).None?
  {
    forall p: nat | p > Pow10(maxLen) ensures PageResolution(t, p, probe).None? {
      FirstServerUrlSpec(Servers, t, p, probe);
      forall s | 0 <= s < |Servers| ensures Verified(Servers[s], t, p, probe).url.None? {
        FarPageMisses(Servers[s], t, p, probe, maxLen);
      }
    }
  }

  /**
   * The bookkeeping after one page of either loop: a found URL is recorded and resets the
   * failure count, a miss adds one to it.
   */
  method RecordPage(ghost hit: nat -> Option<string>, page: nat, misses: nat, imageUrls: map<nat, string>,
                    found: Option<string>)
    returns (newUrls: map<nat, string>, newMisses: nat)
    requires Searching(hit, page, misses) && imageUrls == Collected(hit, page) && found == hit(page)
    ensures newUrls == Collected(hit, page + 1)
    ensures found.None? ==> newUrls == imageUrls
    ensures newMisses == if found.Some? then 0 else misses + 1
    ensures newMisses < 5 ==> Searching(hit, page + 1, newMisses)
    ensures newMisses == 5 ==> StopsAt(hit, page)
  {
    CollectedStep(hit, page);
    if found.Some? {
      SearchHit(hit, page, misses);
      newUrls, newMisses := imageUrls[page := found.value], 0;
    } else {
      SearchMiss(hit, page, misses);
      newUrls, newMisses := imageUrls, misses + 1;
    }
  }

  /**
   * The sequential page loop: resolve each page over all servers, reset the failure count on a
   * hit, and stop once five pages in a row have failed. No page beyond `lastPage` has an image
   * (`SequentialPagesBounded` gives such a page), so the search ends.
   */
  method DiscoverSequential(t: ImagePattern, probe: string -> bool, ghost lastPage: nat)
    returns (imageUrls: map<nat, string>, stop: nat)
    requires forall p: nat :: p > lastPage ==> SequentialHit(t, probe)(p).None?
    ensures StopsAt(SequentialHit(t, probe), stop)
    ensures imageUrls == Collected(SequentialHit(t, probe), stop)
  {
    ghost var hit := SequentialHit(t, probe);
    imageUrls := map[];
    var page := 1;
    var consecutiveFailures := 0;
    SearchStart(hit);
    while consecutiveFailures < 5
      invariant Searching(hit, page, consecutiveFailures)
      invariant imageUrls == Collected(hit, page)
      invariant page > lastPage ==> consecutiveFailures >= page - lastPage - 1
      decreases lastPage + 6 - page
    {
      var found := ResolvePage(t, page, probe);
      imageUrls, consecutiveFailures := RecordPage(hit, page, consecutiveFailures, imageUrls, found);
      if consecutiveFailures >= 5 {
        stop := page;
        break;
      }
      page := page + 1;
    }
  }

  /** `verify_image_url` on the working server, as the asynchronous loop reads it: the URL found, if any. */
  method CheckPage(page: nat, t: ImagePattern, server: string, probe: string -> bool) returns (url: Option<string>)
    ensures url == AsyncHit(t, server, probe)(page)
  {
    var result := VerifyImageUrl(page, t, server, probe);
    url := result.url;
  }

  /**
   * The asynchronous page loop: the same stopping rule, with each page verified on the working
   * server only. No page beyond `lastPage` has an image on that server (`AsyncPagesBounded`
   * gives such a page).
   */
  method DiscoverAsync(t: ImagePattern, server: string, probe: string -> bool, ghost lastPage: nat)
    returns (imageUrls: map<nat, string>, stop: nat)
    requires forall p: nat :: p > lastPage ==> AsyncHit(t, server, probe)(p).None?
    ensures StopsAt(AsyncHit(t, server, probe), stop)
    ensures imageUrls == Collected(AsyncHit(t, server, probe), stop)
  {
    ghost var hit := AsyncHit(t, server, probe);
    imageUrls := map[];
    var page := 1;
    var consecutiveFailures := 0;
    SearchStart(hit);
    while consecutiveFailures < 5
      invariant Searching(hit, page, consecutiveFailures)
      invariant imageUrls == Collected(hit, page)
      invariant page > lastPage ==> consecutiveFailures >= page - lastPage - 1
      decreases lastPage + 6 - page
    {
      var url := CheckPage(page, t, server, probe);
      imageUrls, consecutiveFailures := RecordPage(hit, page, consecutiveFailures, imageUrls, url);
      if consecutiveFailures >= 5 {
        stop := page;
        break;
      }
      page := page + 1;
    }
  }
}
