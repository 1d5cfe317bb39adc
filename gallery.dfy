/**
 * `fetch_manga_images` of both downloaders: read the gallery page's thumbnails, choose the image
 * template, find the pages, and answer `(image_urls, [])`; every failure (the gallery page does
 * not load, no thumbnail matches, no working server, no page found) answers `({}, [])`.
 *
 * The gallery page is given as its thumbnails' `data-src` attributes (`None` for a lazy-loaded
 * image without one), or `None` when fetching the page fails. The image servers answer through
 * `probe`, and no answering URL is longer than `maxLen`, which bounds how far the search runs.
 */
module Gallery {
  import opened Wrappers
  import opened Decimal
  import opened Template
  import opened Resolver
  import opened Discovery

  /** The sequential `fetch_manga_images`. */
  method FetchMangaImagesSequential(gallery: Option<seq<Option<string>>>, probe: string -> bool, ghost maxLen: nat)
    returns (imageUrls: map<nat, string>, failedPages: seq<nat>, ghost chosen: Option<ImagePattern>, ghost stop: nat)
    requires forall u :: probe(u) ==> |u| <= maxLen
    ensures failedPages == []
    ensures gallery.None? ==> chosen.None?
    ensures gallery.Some? ==> (chosen.None? <==> MatchedPatterns(gallery.value) == [])
    ensures chosen.Some? ==> (gallery.Some?
      && chosen.value.pattern == MatchedPatterns(gallery.value)[0]
      && chosen.value.baseDir in BaseDirs(MatchedPatterns(gallery.value)))
    ensures chosen.None? ==> imageUrls == map[]
    ensures chosen.Some? ==> (StopsAt(SequentialHit(chosen.value, probe), stop)
      && imageUrls == Collected(SequentialHit(chosen.value, probe), stop))
  {
    chosen, stop := None, 0;
    if gallery.None? {
      return map[], [], chosen, stop;
    }
    var patterns, baseDirs := ExtractPatterns(gallery.value);
    var template := ChooseTemplate(patterns, baseDirs);
    chosen := template;
    if template.None? {
      return map[], [], chosen, stop;
    }
    SequentialPagesBounded(template.value, probe, maxLen);
    var found;
    found, stop := DiscoverSequential(template.value, probe, Pow10(maxLen));
    if |found| > 0 {
      return found, [], chosen, stop;
    }
    return map[], [], chosen, stop;
  }

  /** The asynchronous `fetch_manga_images`: a working server is chosen before the page search. */
  method FetchMangaImagesAsync(gallery: Option<seq<Option<string>>>, probe: string -> bool, ghost maxLen: nat)
    returns (imageUrls: map<nat, string>, failedPages: seq<nat>, ghost chosen: Option<ImagePattern>, ghost stop: nat)
    requires forall u :: probe(u) ==> |u| <= maxLen
    ensures failedPages == []
    ensures gallery.None? ==> chosen.None?
    ensures gallery.Some? ==> (chosen.None? <==> MatchedPatterns(gallery.value) == [])
    ensures chosen.Some? ==> (gallery.Some?
      && chosen.value.pattern == MatchedPatterns(gallery.value)[0]
      && chosen.value.baseDir in BaseDirs(MatchedPatterns(gallery.value)))
    ensures chosen.None? ==> imageUrls == map[]
    ensures chosen.Some? && WorkingServer(chosen.value, probe).None? ==> imageUrls == map[]
    ensures chosen.Some? && WorkingServer(chosen.value, probe).Some? ==>
      var hit := AsyncHit(chosen.value, WorkingServer(chosen.value, probe).value, probe);
      StopsAt(hit, stop) && imageUrls == Collected(hit, stop)
  {
    chosen, stop := None, 0;
    if gallery.None? {
      return map[], [], chosen, stop;
    }
    var patterns, baseDirs := ExtractPatterns(gallery.value);
    var template := ChooseTemplate(patterns, baseDirs);
    chosen := template;
    if template.None? {
      return map[], [], chosen, stop;
    }
    var workingServer := FindWorkingServer(template.value, probe);
    if workingServer.None? {
      return map[], [], chosen, stop;
    }
    AsyncPagesBounded(workingServer.value, template.value, probe, maxLen);
    var found;
    found, stop := DiscoverAsync(template.value, workingServer.value, probe, Pow10(maxLen));
    if |found| > 0 {
      return found, [], chosen, stop;
    }
    return map[], [], chosen, stop;
  }

  /**
   * When no server answers for pages 1-5 the asynchronous downloader gives up; the sequential one
   * finds the same five misses and stops at page 5 with nothing.
   */
  lemma {:induction false} NoWorkingServerNothingFound(t: ImagePattern, probe: string -> bool)
    requires WorkingServer(t, probe).None?
    ensures StopsAt(SequentialHit(t, probe), 5)
    ensures Collected(SequentialHit(t, probe), 5) == map[]
  {
    var hit := SequentialHit(t, probe);
    forall p: nat | 1 <= p <= 5 ensures hit(p).None? {
      FirstServerUrlSpec(Servers, t, p, probe);
    }
    FirstFiveMiss(hit);
  }

  /**
   * When only one server ever answers, asking every server and asking just that one see the same
   * pages: both searches stop at the same page with the same URLs.
   */
  lemma {:induction false} SingleServerSearchesAgree(t: ImagePattern, server: string, probe: string -> bool)
    requires server in Servers
    requires forall s, p: nat :: 0 <= s < |Servers| && Servers[s] != server ==> Verified(Servers[s], t, p, probe).url.None?
    ensures forall p: nat :: SequentialHit(t, probe)(p) == AsyncHit(t, server, probe)(p)
    ensures forall s: nat :: StopsAt(SequentialHit(t, probe), s) <==> StopsAt(AsyncHit(t, server, probe), s)
    ensures forall s: nat :: Collected(SequentialHit(t, probe), s) == Collected(AsyncHit(t, server, probe), s)
  {
    var seqHit, asyncHit := SequentialHit(t, probe), AsyncHit(t, server, probe);
    forall p: nat ensures seqHit(p) == asyncHit(p) {
      FirstServerUrlSpec(Servers, t, p, probe);
      var k :| 0 <= k < |Servers| && Servers[k] == server;
      if Verified(server, t, p, probe).url.Some? {
        FirstServerUrlAt(Servers, t, p, probe, k);
      }
    }
    forall s: nat ensures (StopsAt(seqHit, s) <==> StopsAt(asyncHit, s)) && Collected(seqHit, s) == Collected(asyncHit, s) {
      SameHitsSameSearch(seqHit, asyncHit, s);
    }
  }
}
