/**
 * Finding the URL of one page image. For a server, the candidates are tried extension by
 * extension (.jpg, .png, .webp), and for each extension in four forms: http and https, each on
 * the primary path `<pattern>/<page><ext>` and on the secondary path
 * `<base_dir>/<key>/<page><ext>`. The first candidate whose HEAD request answers 200 wins; a
 * request that raises counts as a miss. The network is the oracle `probe`: `probe(u)` holds
 * when a HEAD of `u` returns status 200 (section 9.3.2 of RFC 9110).
 */
module Resolver {
  import opened Wrappers
  import opened Text
  import opened Decimal
  import opened Template

  /** The image servers, in the order they are tried. */
  const Servers: seq<string> := ["i1", "i2", "i3", "i4", "i5", "i6"]

  /** The file extensions, in the order they are tried. */
  const Extensions: seq<string> := [".jpg", ".png", ".webp"]

  function ImageHost(server: string): string {
    server + ".nhentaimg.com"
  }

  /** URL form `form` of one extension: http-primary, https-primary, http-secondary, https-secondary. */
  function FormUrl(server: string, t: ImagePattern, page: nat, ext: string, form: nat): (url: string)
    requires form < 4
  {
    var scheme := if form == 0 || form == 2 then "http://" else "https://";
    var path := if form < 2 then t.pattern else SecondaryPath(t);
    scheme + ImageHost(server) + "/" + path + "/" + Str(page) + ext
  }

  /** The first and third forms use http, the second and fourth https. */
  lemma FormUrlScheme(server: string, t: ImagePattern, page: nat, ext: string, form: nat)
    requires form < 4
    ensures StartsWith(FormUrl(server, t, page, ext, form), if form == 0 || form == 2 then "http://" else "https://")
  {
    var scheme := if form == 0 || form == 2 then "http://" else "https://";
    var path := if form < 2 then t.pattern else SecondaryPath(t);
    var host := scheme + ImageHost(server);
    var dir := host + "/" + path;
    var name := dir + "/" + Str(page);
    Concatenation(scheme, ImageHost(server));
    ExtendKeepsPrefix(host, "/" + path, scheme);
    assert dir == host + ("/" + path);
    ExtendKeepsPrefix(dir, "/" + Str(page), scheme);
    assert name == dir + ("/" + Str(page));
    ExtendKeepsPrefix(name, ext, scheme);
  }

  /** Every form ends in `/<page><ext>`: the forms of a page differ only in scheme and directory. */
  lemma FormUrlTail(server: string, t: ImagePattern, page: nat, ext: string, form: nat)
    requires form < 4
    ensures var url, tail := FormUrl(server, t, page, ext, form), "/" + Str(page) + ext;
      |tail| <= |url| && OccursAt(url, tail, |url| - |tail|)
  {
    var scheme := if form == 0 || form == 2 then "http://" else "https://";
    var path := if form < 2 then t.pattern else SecondaryPath(t);
    var head := scheme + ImageHost(server) + "/" + path;
    var tail := "/" + Str(page) + ext;
    assert FormUrl(server, t, page, ext, form) == head + tail;
    Concatenation(head, tail);
  }

  /** Appending to a string keeps every prefix it had. */
  lemma ExtendKeepsPrefix(s: string, more: string, prefix: string)
    requires StartsWith(s, prefix)
    ensures StartsWith(s + more, prefix)
  {
    assert (s + more)[..|prefix|] == s[..|prefix|];
  }

  /** A concatenation starts with its first part and ends with its second. */
  lemma Concatenation(a: string, b: string)
    ensures StartsWith(a + b, a) && OccursAt(a + b, b, |a|)
  {
    assert (a + b)[..|a|] == a;
    assert (a + b)[|a|..|a| + |b|] == b;
  }

  /** Candidate `i` of a server: extension `i / 4`, form `i % 4`. */
  function CandidateUrl(server: string, t: ImagePattern, page: nat, i: nat): (url: string)
    requires i < 12
  {
    FormUrl(server, t, page, Extensions[i / 4], i % 4)
  }

  /** The twelve candidates of one server, in the order they are tried. */
  function Candidates(server: string, t: ImagePattern, page: nat): (urls: seq<string>)
    ensures |urls| == 12
  {
    seq(12, i requires 0 <= i < 12 => CandidateUrl(server, t, page, i))
  }

  lemma CandidateIndex(server: string, t: ImagePattern, page: nat, e: nat, f: nat)
    requires e < 3 && f < 4
    ensures Candidates(server, t, page)[4 * e + f] == FormUrl(server, t, page, Extensions[e], f)
  {
    assert (4 * e + f) / 4 == e && (4 * e + f) % 4 == f;
  }

  /** Every candidate spells out the page number, so it is longer than the page's decimal form. */
  lemma CandidateLength(server: string, t: ImagePattern, page: nat, i: nat)
    requires i < 12
    ensures |Candidates(server, t, page)[i]| > |Str(page)|
  {
  }

  /**
   * When the base directory is the pattern's own, each secondary form repeats the primary form
   * with the same scheme and extension.
   */
  lemma SecondaryRepeatsPrimary(server: string, t: ImagePattern, page: nat, ext: string, form: nat)
    requires IsPattern(t.pattern) && t.baseDir == BaseDir(t.pattern)
    requires 2 <= form < 4
    ensures FormUrl(server, t, page, ext, form) == FormUrl(server, t, page, ext, form - 2)
  {
    SecondaryPathIsPrimary(t);
  }

  /** The index of the first element satisfying `p`, if any. */
  function FirstIndex<T>(xs: seq<T>, p: T -> bool): (r: Option<nat>)
    ensures r.None? <==> forall j :: 0 <= j < |xs| ==> !p(xs[j])
    ensures r.Some? ==> r.value < |xs| && p(xs[r.value]) && forall j :: 0 <= j < r.value ==> !p(xs[j])
  {
    if |xs| == 0 then None
    else if p(xs[0]) then Some(0)
    else match FirstIndex(xs[1..], p)
      case None => None
      case Some(i) => Some(i + 1)
  }

  /** The first index is determined by the two facts the contract of `FirstIndex` states. */
  lemma FirstIndexUnique<T>(xs: seq<T>, p: T -> bool, k: nat)
    requires k < |xs| && p(xs[k]) && forall j :: 0 <= j < k ==> !p(xs[j])
    ensures FirstIndex(xs, p) == Some(k)
  {
    var r := FirstIndex(xs, p);
    assert r.Some? && p(xs[r.value]);
  }

  /** `VerificationResult(page_num, url, server, extension)`. */
  datatype VerificationResult = VerificationResult(
    pageNum: nat, url: Option<string>, server: Option<string>, extension: Option<string>)

  /** The result `verify_image_url` gives: the first candidate that answers, or all `None`. */
  function Verified(server: string, t: ImagePattern, page: nat, probe: string -> bool): (r: VerificationResult)
    ensures r.pageNum == page
    ensures r.url.Some? ==> probe(r.url.value)
  {
    var urls := Candidates(server, t, page);
    match FirstIndex(urls, probe)
    case None => VerificationResult(page, None, None, None)
    case Some(i) => VerificationResult(page, Some(urls[i]), Some(server), Some(Extensions[i / 4]))
  }

  /**
   * A server has no URL for a page exactly when none of its twelve candidates answers. When it
   * has one, that URL is the first candidate that answers, and the result names the server and
   * that candidate's extension.
   */
  lemma VerifiedSpec(server: string, t: ImagePattern, page: nat, probe: string -> bool)
    ensures var r, urls := Verified(server, t, page, probe), Candidates(server, t, page);
      && (r.url.None? <==> forall j :: 0 <= j < 12 ==> !probe(urls[j]))
      && (r.url.None? ==> r.server.None? && r.extension.None?)
      && (r.url.Some? ==> r.server == Some(server) && exists i :: (0 <= i < 12
        && r.url.value == urls[i] && probe(urls[i]) && r.extension == Some(Extensions[i / 4])
        && forall j :: 0 <= j < i ==> !probe(urls[j])))
  {
  }

  /**
   * `verify_image_url`: the nested loops over extensions and URL forms with an early return on
   * the first status 200.
   */
  method VerifyImageUrl(page: nat, t: ImagePattern, server: string, probe: string -> bool)
    returns (result: VerificationResult)
    ensures result == Verified(server, t, page, probe)
  {
    var e := 0;
    while e < 3
      invariant 0 <= e <= 3
      invariant forall j :: 0 <= j < 4 * e ==> !probe(Candidates(server, t, page)[j])
    {
      var hit := TryExtension(page, t, server, e, probe);
      if hit.Some? {
        return VerificationResult(page, hit, Some(server), Some(Extensions[e]));
      }
      e := e + 1;
    }
    return VerificationResult(page, None, None, None);
  }

  /**
   * The four URL forms of one extension, tried in order. Earlier extensions have all missed, so a
   * hit here is the first candidate that answers.
   */
  method TryExtension(page: nat, t: ImagePattern, server: string, e: nat, probe: string -> bool)
    returns (hit: Option<string>)
    requires e < 3
    requires forall j :: 0 <= j < 4 * e ==> !probe(Candidates(server, t, page)[j])
    ensures hit.None? ==> forall j :: 0 <= j < 4 * e + 4 ==> !probe(Candidates(server, t, page)[j])
    ensures hit.Some? ==> Verified(server, t, page, probe) == VerificationResult(page, hit, Some(server), Some(Extensions[e]))
  {
    ghost var urls := Candidates(server, t, page);
    var host := ImageHost(server);
    var ext := Extensions[e];
    var pageNum := Str(page);
    var testUrls := [
      "http://" + host + "/" + t.pattern + "/" + pageNum + ext,
      "https://" + host + "/" + t.pattern + "/" + pageNum + ext,
      "http://" + host + "/" + SecondaryPath(t) + "/" + pageNum + ext,
      "https://" + host + "/" + SecondaryPath(t) + "/" + pageNum + ext
    ];
    var f := 0;
    while f < 4
      invariant 0 <= f <= 4
      invariant forall j :: 0 <= j < 4 * e + f ==> !probe(urls[j])
    {
      CandidateIndex(server, t, page, e, f);
      assert testUrls[f] == urls[4 * e + f];
      if probe(testUrls[f]) {
        FirstIndexUnique(urls, probe, 4 * e + f);
        assert (4 * e + f) / 4 == e;
        return Some(testUrls[f]);
      }
      f := f + 1;
    }
    return None;
  }

  /**
   * The URL the sequential downloader records for a page: servers are tried in order and the
   * first one that has an answering candidate supplies its first answering candidate.
   */
  function FirstServerUrl(servers: seq<string>, t: ImagePattern, page: nat, probe: string -> bool): (r: Option<string>)
    ensures r.Some? ==> probe(r.value)
  {
    if |servers| == 0 then None
    else if Verified(servers[0], t, page, probe).url.Some? then Verified(servers[0], t, page, probe).url
    else FirstServerUrl(servers[1..], t, page, probe)
  }

  /**
   * `FirstServerUrl` finds nothing exactly when no server has an answering candidate, and
   * otherwise gives the URL of a server all of whose predecessors have none.
   */
  lemma {:induction false} FirstServerUrlSpec(servers: seq<string>, t: ImagePattern, page: nat, probe: string -> bool)
    ensures var r := FirstServerUrl(servers, t, page, probe);
      && (r.None? <==> forall s :: 0 <= s < |servers| ==> Verified(servers[s], t, page, probe).url.None?)
      && (r.Some? ==> exists s :: (0 <= s < |servers| && r == Verified(servers[s], t, page, probe).url
        && forall s' :: 0 <= s' < s ==> Verified(servers[s'], t, page, probe).url.None?))
  {
    if |servers| > 0 && Verified(servers[0], t, page, probe).url.None? {
      var rest := servers[1..];
      FirstServerUrlSpec(rest, t, page, probe);
      assert forall s :: 1 <= s < |servers| ==> rest[s - 1] == servers[s];
      var r := FirstServerUrl(servers, t, page, probe);
      if r.Some? {
        var s :| 0 <= s < |rest| && r == Verified(rest[s], t, page, probe).url
          && forall s' :: 0 <= s' < s ==> Verified(rest[s'], t, page, probe).url.None?;
        assert r == Verified(servers[s + 1], t, page, probe).url;
      }
    }
  }

  /** The URL the sequential downloader records for a page: the first over servers i1-i6. */
  function PageResolution(t: ImagePattern, page: nat, probe: string -> bool): (r: Option<string>)
    ensures r.Some? ==> probe(r.value)
  {
    FirstServerUrl(Servers, t, page, probe)
  }

  /** A page resolves exactly when some candidate on some server answers, and only to such a URL. */
  lemma PageResolutionIff(t: ImagePattern, page: nat, probe: string -> bool)
    ensures PageResolution(t, page, probe).None? <==>
      forall s, j :: 0 <= s < |Servers| && 0 <= j < 12 ==> !probe(Candidates(Servers[s], t, page)[j])
    ensures PageResolution(t, page, probe).Some? ==> probe(PageResolution(t, page, probe).value)
  {
    var r := PageResolution(t, page, probe);
    FirstServerUrlSpec(Servers, t, page, probe);
    if r.Some? {
      var s :| 0 <= s < |Servers| && r == Verified(Servers[s], t, page, probe).url;
    }
  }

  /** The four candidates of extension `e` follow those of the earlier extensions. */
  lemma ExtensionBlock(server: string, t: ImagePattern, page: nat, e: nat)
    requires e < 3
    ensures var urls := Candidates(server, t, page);
      var ext := Extensions[e];
      urls[..4 * e + 4] == urls[..4 * e] + [FormUrl(server, t, page, ext, 0), FormUrl(server, t, page, ext, 1),
        FormUrl(server, t, page, ext, 2), FormUrl(server, t, page, ext, 3)]
  {
    var urls := Candidates(server, t, page);
    var ext := Extensions[e];
    var block := [FormUrl(server, t, page, ext, 0), FormUrl(server, t, page, ext, 1),
      FormUrl(server, t, page, ext, 2), FormUrl(server, t, page, ext, 3)];
    var joined := urls[..4 * e] + block;
    forall j | 0 <= j < 4 * e + 4 ensures joined[j] == urls[j] {
      if j >= 4 * e {
        CandidateIndex(server, t, page, e, j - 4 * e);
      }
    }
  }

  /**
   * The `test_urls` list of the sequential downloader for one server: for each extension in
   * turn, the four URL forms are appended.
   */
  method ServerTestUrls(server: string, t: ImagePattern, page: nat) returns (testUrls: seq<string>)
    ensures testUrls == Candidates(server, t, page)
  {
    testUrls := [];
    var e := 0;
    while e < 3
      invariant 0 <= e <= 3
      invariant testUrls == Candidates(server, t, page)[..4 * e]
    {
      var ext := Extensions[e];
      var forms := [FormUrl(server, t, page, ext, 0), FormUrl(server, t, page, ext, 1),
        FormUrl(server, t, page, ext, 2), FormUrl(server, t, page, ext, 3)];
      ExtensionBlock(server, t, page, e);
      testUrls := testUrls + forms;
      e := e + 1;
    }
    assert Candidates(server, t, page)[..12] == Candidates(server, t, page);
  }

  /**
   * The body of the sequential discovery loop for one page: servers in order, each with its
   * twelve candidates, stopping at the first status 200 (`url_found`).
   */
  method ResolvePage(t: ImagePattern, page: nat, probe: string -> bool) returns (found: Option<string>)
    ensures found == PageResolution(t, page, probe)
  {
    var urlFound := false;
    found := None;
    var s := 0;
    while s < |Servers|
      invariant 0 <= s <= |Servers|
      invariant !urlFound && found.None?
      invariant forall s' :: 0 <= s' < s ==> Verified(Servers[s'], t, page, probe).url.None?
    {
      found := ProbeServer(Servers[s], t, page, probe);
      if found.Some? {
        urlFound := true;
        FirstServerUrlAt(Servers, t, page, probe, s);
        break;
      }
      s := s + 1;
    }
    if !urlFound {
      FirstServerUrlSpec(Servers, t, page, probe);
    }
  }

  /** The inner loop of the sequential resolver: the server's candidates, tried in order. */
  method ProbeServer(server: string, t: ImagePattern, page: nat, probe: string -> bool) returns (found: Option<string>)
    ensures found == Verified(server, t, page, probe).url
  {
    ghost var urls := Candidates(server, t, page);
    var testUrls := ServerTestUrls(server, t, page);
    var j := 0;
    while j < |testUrls|
      invariant 0 <= j <= |testUrls|
      invariant forall k :: 0 <= k < j ==> !probe(urls[k])
    {
      if probe(testUrls[j]) {
        FirstIndexUnique(urls, probe, j);
        return Some(testUrls[j]);
      }
      j := j + 1;
    }
    VerifiedSpec(server, t, page, probe);
    return None;
  }

  /** When servers before `s` have no answer and `s` has one, the page resolves to the one of `s`. */
  lemma {:induction false} FirstServerUrlAt(servers: seq<string>, t: ImagePattern, page: nat, probe: string -> bool, s: nat)
    requires s < |servers| && Verified(servers[s], t, page, probe).url.Some?
    requires forall s' :: 0 <= s' < s ==> Verified(servers[s'], t, page, probe).url.None?
    ensures FirstServerUrl(servers, t, page, probe) == Verified(servers[s], t, page, probe).url
  {
    if s > 0 {
      assert forall s' :: 0 <= s' < s - 1 ==> servers[1..][s'] == servers[s' + 1];
      FirstServerUrlAt(servers[1..], t, page, probe, s - 1);
    }
  }


  /** Pages 1 to 5 on every server, page by page: the order of the initial gather. */
  function ProbeGrid(t: ImagePattern, probe: string -> bool): (results: seq<VerificationResult>)
    ensures |results| == 30
  {
    seq(30, k requires 0 <= k < 30 => Verified(Servers[k % 6], t, 1 + k / 6, probe))
  }

  lemma GridIndex(t: ImagePattern, probe: string -> bool, page: nat, s: nat)
    requires 1 <= page <= 5 && s < 6
    ensures ProbeGrid(t, probe)[6 * (page - 1) + s] == Verified(Servers[s], t, page, probe)
  {
    assert (6 * (page - 1) + s) / 6 == page - 1 && (6 * (page - 1) + s) % 6 == s;
  }

  /** Row `page` of the grid, one server longer. */
  lemma GridRowStep(t: ImagePattern, probe: string -> bool, page: nat, s: nat)
    requires 1 <= page <= 5 && s < 6
    ensures var grid, lo := ProbeGrid(t, probe), 6 * (page - 1);
      grid[lo..lo + s + 1] == grid[lo..lo + s] + [Verified(Servers[s], t, page, probe)]
  {
    GridIndex(t, probe, page, s);
  }

  predicate HasUrl(r: VerificationResult) {
    r.url.Some?
  }

  /** The server of the first result that has a URL. */
  function ServerOfFirstHit(results: seq<VerificationResult>): (ws: Option<string>)
    ensures (forall j :: 0 <= j < |results| ==> !HasUrl(results[j])) ==> ws.None?
    ensures (exists j :: 0 <= j < |results| && HasUrl(results[j])) ==> exists k :: (0 <= k < |results|
      && HasUrl(results[k]) && ws == results[k].server && forall j :: 0 <= j < k ==> !HasUrl(results[j]))
  {
    match FirstIndex(results, HasUrl)
    case None => None
    case Some(k) => results[k].server
  }

  /**
   * The working server: the server of the first verified result of the grid, which runs page
   * by page over pages 1-5 and, within a page, over servers i1-i6.
   */
  function WorkingServer(t: ImagePattern, probe: string -> bool): (ws: Option<string>)
    ensures ws.None? <==> forall page, s :: 1 <= page <= 5 && 0 <= s < 6 ==>
      Verified(Servers[s], t, page, probe).url.None?
    ensures ws.Some? ==> exists page, s :: (1 <= page <= 5 && 0 <= s < 6 && ws == Some(Servers[s])
      && Verified(Servers[s], t, page, probe).url.Some?
      && forall page', s' :: 1 <= page' <= 5 && 0 <= s' < 6 && (page' < page || (page' == page && s' < s)) ==>
        Verified(Servers[s'], t, page', probe).url.None?)
  {
    var grid := ProbeGrid(t, probe);
    match FirstIndex(grid, HasUrl)
    case None =>
      forall page, s | 1 <= page <= 5 && 0 <= s < 6
        ensures Verified(Servers[s], t, page, probe).url.None?
      {
        GridIndex(t, probe, page, s);
      }
      ServerOfFirstHit(grid)
    case Some(k) =>
      var page, s := 1 + k / 6, k % 6;
      GridIndex(t, probe, page, s);
      assert k == 6 * (page - 1) + s;
      forall page', s' | 1 <= page' <= 5 && 0 <= s' < 6 && (page' < page || (page' == page && s' < s))
        ensures Verified(Servers[s'], t, page', probe).url.None?
      {
        GridIndex(t, probe, page', s');
        assert 6 * (page' - 1) + s' < k;
      }
      ServerOfFirstHit(grid)
  }

  /**
   * The working-server search of the asynchronous downloader: verify pages 1-5 on servers
   * i1-i6, gather the results page by page, and take the server of the first that has a URL.
   */
  method FindWorkingServer(t: ImagePattern, probe: string -> bool) returns (ws: Option<string>)
    ensures ws == WorkingServer(t, probe)
  {
    var results := GatherGrid(t, probe);
    ws := FirstServerWithUrl(results);
  }

  /** The scan over the gathered results, stopping at the first that has a URL. */
  method FirstServerWithUrl(results: seq<VerificationResult>) returns (ws: Option<string>)
    ensures ws == ServerOfFirstHit(results)
  {
    var i := 0;
    while i < |results|
      invariant 0 <= i <= |results|
      invariant forall j :: 0 <= j < i ==> !HasUrl(results[j])
    {
      if results[i].url.Some? {
        FirstIndexUnique(results, HasUrl, i);
        return results[i].server;
      }
      i := i + 1;
    }
    return None;
  }

  /** The gather over pages 1-5, each page verified on every server in turn. */
  method GatherGrid(t: ImagePattern, probe: string -> bool) returns (results: seq<VerificationResult>)
    ensures results == ProbeGrid(t, probe)
  {
    ghost var grid := ProbeGrid(t, probe);
    results := [];
    var page := 1;
    while page <= 5
      invariant 1 <= page <= 6
      invariant results == grid[..6 * (page - 1)]
    {
      var row := VerifyPageOnAllServers(page, t, probe);
      assert grid[..6 * page] == grid[..6 * (page - 1)] + grid[6 * (page - 1)..6 * page];
      results := results + row;
      page := page + 1;
    }
    assert results == grid;
  }

  /** One page verified on servers i1-i6: its row of the grid. */
  method VerifyPageOnAllServers(page: nat, t: ImagePattern, probe: string -> bool) returns (row: seq<VerificationResult>)
    requires 1 <= page <= 5
    ensures row == ProbeGrid(t, probe)[6 * (page - 1)..6 * page]
  {
    ghost var grid := ProbeGrid(t, probe);
    ghost var lo := 6 * (page - 1);
    row := [];
    var s := 0;
    while s < |Servers|
      invariant 0 <= s <= 6
      invariant row == grid[lo..lo + s]
    {
      var r := VerifyImageUrl(page, t, Servers[s], probe);
      GridRowStep(t, probe, page, s);
      row := row + [r];
      s := s + 1;
    }
  }
}
