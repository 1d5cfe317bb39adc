/**
 * The string utilities shared by both downloaders: the gallery id taken from a URL, the
 * sanitised directory name taken from a title, and the nhentai.xxx gallery URL check.
 */
module Identifiers {
  import opened Wrappers
  import opened Text

  /** The longest prefix of `s` made of digits. */
  function DigitRun(s: string): (r: string)
    ensures |r| <= |s| && r == s[..|r|]
    ensures forall i :: 0 <= i < |r| ==> IsDigit(r[i])
    ensures |r| < |s| ==> !IsDigit(s[|r|])
  {
    if |s| > 0 && IsDigit(s[0]) then [s[0]] + DigitRun(s[1..]) else []
  }

  lemma {:induction false} DigitRunOf(digits: string, tail: string)
    requires forall i :: 0 <= i < |digits| ==> IsDigit(digits[i])
    requires |tail| == 0 || !IsDigit(tail[0])
    ensures DigitRun(digits + tail) == digits
  {
    if |digits| > 0 {
      assert (digits + tail)[1..] == digits[1..] + tail;
      DigitRunOf(digits[1..], tail);
    } else {
      assert digits + tail == tail;
    }
  }

  /**
   * `re.search(r'/g/(\d+)', s).group(1)`: the digits after the leftmost `/g/` that is followed by
   * a digit, as many as there are (the regex's trailing `/?` never changes the match).
   */
  function GalleryIdMatch(s: string): (r: Option<string>)
    ensures r.Some? ==> IsDigitString(r.value)
    decreases |s|
  {
    if |s| < 4 then None
    else if s[..3] == "/g/" && IsDigit(s[3]) then Some(DigitRun(s[3..]))
    else GalleryIdMatch(s[1..])
  }

  /** A string with no digit in it has no `/g/<digit>` match. */
  lemma {:induction false} NoDigitNoGalleryMatch(s: string)
    requires forall i :: 0 <= i < |s| ==> !IsDigit(s[i])
    ensures GalleryIdMatch(s).None?
    decreases |s|
  {
    if |s| >= 4 {
      NoDigitNoGalleryMatch(s[1..]);
    }
  }

  /** A `/g/` followed by a digit starts at position `i` of `s`. */
  predicate GalleryMarkAt(s: string, i: nat) {
    i + 4 <= |s| && s[i..i + 3] == "/g/" && IsDigit(s[i + 3])
  }

  /**
   * The search finds the leftmost `/g/<digit>` and takes the digit run after it; there is no
   * match exactly when no `/g/<digit>` occurs anywhere.
   */
  lemma {:induction false} GalleryIdMatchSpec(s: string)
    ensures GalleryIdMatch(s).None? <==> forall i: nat :: !GalleryMarkAt(s, i)
    ensures GalleryIdMatch(s).Some? ==> exists i: nat :: (GalleryMarkAt(s, i)
      && (forall j: nat :: j < i ==> !GalleryMarkAt(s, j))
      && GalleryIdMatch(s).value == DigitRun(s[i + 3..]))
    decreases |s|
  {
    if |s| < 4 {
    } else if s[..3] == "/g/" && IsDigit(s[3]) {
      assert GalleryMarkAt(s, 0);
    } else {
      var t := s[1..];
      GalleryIdMatchSpec(t);
      assert !GalleryMarkAt(s, 0);
      forall i: nat ensures GalleryMarkAt(s, i + 1) <==> GalleryMarkAt(t, i) {
        if i + 5 <= |s| {
          assert s[i + 1..i + 4] == t[i..i + 3];
        }
      }
      if GalleryIdMatch(t).None? {
        forall i: nat ensures !GalleryMarkAt(s, i) {
          if i > 0 {
            assert !GalleryMarkAt(t, i - 1);
          }
        }
      } else {
        var i: nat :| GalleryMarkAt(t, i) && (forall j: nat :: j < i ==> !GalleryMarkAt(t, j))
          && GalleryIdMatch(t).value == DigitRun(t[i + 3..]);
        assert t[i + 3..] == s[i + 4..];
        forall j: nat | j < i + 1 ensures !GalleryMarkAt(s, j) {
          if j > 0 {
            assert !GalleryMarkAt(t, j - 1);
          }
        }
        assert GalleryMarkAt(s, i + 1);
      }
    }
  }

  /**
   * When nothing before `/g/` holds a `g`, the match is the digit run right after that `/g/`:
   * an earlier `/g/` would need a `g` in the prefix.
   */
  lemma {:induction false} GalleryIdAfterPrefix(prefix: string, id: string, tail: string)
    requires 'g' !in prefix
    requires IsDigitString(id)
    requires |tail| == 0 || !IsDigit(tail[0])
    ensures GalleryIdMatch(prefix + "/g/" + id + tail) == Some(id)
    decreases |prefix|
  {
    var s := prefix + "/g/" + id + tail;
    if |prefix| == 0 {
      assert s == "/g/" + (id + tail);
      assert s[3..] == id + tail;
      DigitRunOf(id, tail);
    } else {
      assert s[1] != 'g' by {
        if |prefix| > 1 { assert s[1] == prefix[1]; } else { assert s[1] == '/'; }
      }
      assert s[1..] == prefix[1..] + "/g/" + id + tail;
      GalleryIdAfterPrefix(prefix[1..], id, tail);
    }
  }

  /** `for part in reversed(parts): if part.isdigit(): return part`. */
  function LastDigitPart(parts: seq<string>): (r: Option<string>)
    ensures r.None? <==> forall k :: 0 <= k < |parts| ==> !IsDigitString(parts[k])
    ensures r.Some? ==> exists k :: (0 <= k < |parts| && parts[k] == r.value
      && IsDigitString(parts[k]) && forall j :: k < j < |parts| ==> !IsDigitString(parts[j]))
  {
    if |parts| == 0 then None
    else if IsDigitString(parts[|parts| - 1]) then Some(parts[|parts| - 1])
    else
      var r := LastDigitPart(parts[..|parts| - 1]);
      assert forall k :: 0 <= k < |parts| - 1 ==> parts[..|parts| - 1][k] == parts[k];
      r
  }

  datatype IdError = CouldNotExtractId

  /**
   * `extract_manga_id`: the digits after the first `/g/<digit>`; failing that, the last
   * `/`-separated segment of the URL (trailing slashes removed) that is all digits; failing
   * that, `ValueError`.
   */
  function ExtractMangaId(url: string): (r: Result<string, IdError>)
    ensures r.Ok? ==> IsDigitString(r.value)
    ensures GalleryIdMatch(url).Some? ==> r == Ok(GalleryIdMatch(url).value)
    ensures r.Err? <==> (GalleryIdMatch(url).None?
      && forall k :: 0 <= k < |PathSegments(url)| ==> !IsDigitString(PathSegments(url)[k]))
    ensures GalleryIdMatch(url).None? && r.Ok? ==> r == Ok(LastDigitPart(PathSegments(url)).value)
  {
    match GalleryIdMatch(url)
    case Some(id) => Ok(id)
    case None =>
      match LastDigitPart(PathSegments(url))
      case Some(part) => Ok(part)
      case None => Err(CouldNotExtractId)
  }

  /** `url.rstrip('/').split('/')` */
  function PathSegments(url: string): (parts: seq<string>)
    ensures forall k, c :: 0 <= k < |parts| && c in parts[k] ==> c in url
  {
    var trimmed := RStripChar(url, '/');
    assert forall c :: c in trimmed ==> c in url;
    SplitParts(trimmed, '/');
    Split(trimmed, '/')
  }

  /** A gallery URL `prefix/g/<id><tail>` yields its id. */
  lemma GalleryUrlId(prefix: string, id: string, tail: string)
    requires 'g' !in prefix
    requires IsDigitString(id)
    requires |tail| == 0 || !IsDigit(tail[0])
    ensures ExtractMangaId(prefix + "/g/" + id + tail) == Ok(id)
  {
    GalleryIdAfterPrefix(prefix, id, tail);
  }

  /** A URL without any digit has no id. */
  lemma NoDigitNoId(url: string)
    requires forall i :: 0 <= i < |url| ==> !IsDigit(url[i])
    ensures ExtractMangaId(url).Err?
  {
    NoDigitNoGalleryMatch(url);
    var parts := PathSegments(url);
    forall k | 0 <= k < |parts| ensures !IsDigitString(parts[k]) {
      if |parts[k]| > 0 {
        assert parts[k][0] in parts[k];
        assert parts[k][0] in url;
      }
    }
  }

  /** `test_extract_manga_id`: a gallery URL with a trailing slash. */
  lemma ExtractMangaIdTrailingSlash()
    ensures ExtractMangaId("https://nhentai.xxx/g/123456/") == Ok("123456")
  {
    var host := "https://nhentai.xxx";
    assert 'g' !in host && IsDigitString("123456");
    GalleryUrlId(host, "123456", "/");
    assert host + "/g/" + "123456" + "/" == "https://nhentai.xxx/g/123456/";
  }

  /** `test_extract_manga_id`: a gallery URL without a trailing slash. */
  lemma ExtractMangaIdNoTrailingSlash()
    ensures ExtractMangaId("https://nhentai.xxx/g/123456") == Ok("123456")
  {
    var host := "https://nhentai.xxx";
    assert 'g' !in host && IsDigitString("123456");
    GalleryUrlId(host, "123456", "");
    assert host + "/g/" + "123456" + "" == "https://nhentai.xxx/g/123456";
  }

  /** `test_extract_manga_id`: a gallery URL without a scheme. */
  lemma ExtractMangaIdNoScheme()
    ensures ExtractMangaId("nhentai.xxx/g/123456") == Ok("123456")
  {
    var host := "nhentai.xxx";
    assert 'g' !in host && IsDigitString("123456");
    GalleryUrlId(host, "123456", "");
    assert host + "/g/" + "123456" + "" == "nhentai.xxx/g/123456";
  }

  /** `test_extract_manga_id`: a gallery URL with a query string. */
  lemma ExtractMangaIdWithQuery()
    ensures ExtractMangaId("https://nhentai.xxx/g/123456/?page=2") == Ok("123456")
  {
    var host := "https://nhentai.xxx";
    assert 'g' !in host && IsDigitString("123456");
    GalleryUrlId(host, "123456", "/?page=2");
    assert host + "/g/" + "123456" + "/?page=2" == "https://nhentai.xxx/g/123456/?page=2";
  }

  /** `test_extract_manga_id`: a URL with no digit anywhere has no id. */
  lemma ExtractMangaIdRejectsPath()
    ensures ExtractMangaId("https://nhentai.xxx/invalid/url").Err?
  {
    var a := "https://nhentai.xxx/invalid/url";
    assert forall i :: 0 <= i < |a| ==> !IsDigit(a[i]);
    NoDigitNoId(a);
  }

  /** `test_extract_manga_id`: the bare site URL has no id. */
  lemma ExtractMangaIdRejectsHost()
    ensures ExtractMangaId("https://nhentai.xxx/").Err?
  {
    var a := "https://nhentai.xxx/";
    assert forall i :: 0 <= i < |a| ==> !IsDigit(a[i]);
    NoDigitNoId(a);
  }

  /** The characters `re.sub(r'[<>:"/\\|?*]', '', name)` removes. */
  predicate IsForbidden(c: char) {
    c == '<' || c == '>' || c == ':' || c == '"' || c == '/' || c == '\\' || c == '|' || c == '?' || c == '*'
  }

  /** `re.sub(r'[<>:"/\\|?*]', '', s)`: `s` with every forbidden character dropped. */
  function RemoveForbidden(s: string): (r: string)
    ensures forall i :: 0 <= i < |r| ==> !IsForbidden(r[i])
    ensures |r| <= |s|
  {
    if |s| == 0 then ""
    else if IsForbidden(s[0]) then RemoveForbidden(s[1..])
    else [s[0]] + RemoveForbidden(s[1..])
  }

  /** Removal works piece by piece. */
  lemma {:induction false} RemoveForbiddenAppend(a: string, b: string)
    ensures RemoveForbidden(a + b) == RemoveForbidden(a) + RemoveForbidden(b)
  {
    if |a| == 0 {
      assert a + b == b;
    } else {
      assert (a + b)[1..] == a[1..] + b;
      RemoveForbiddenAppend(a[1..], b);
    }
  }

  /** A string with nothing to remove is left as it is. */
  lemma {:induction false} RemoveForbiddenClean(s: string)
    requires forall i :: 0 <= i < |s| ==> !IsForbidden(s[i])
    ensures RemoveForbidden(s) == s
  {
    if |s| > 0 {
      RemoveForbiddenClean(s[1..]);
      assert s == [s[0]] + s[1..];
    }
  }

  /** The maximum length kept by `sanitized_name[:255]`. */
  const MaxFilenameLength: nat := 255

  /**
   * `safe_format_filename`: `''` for `None` or `''`; otherwise the forbidden characters removed,
   * surrounding whitespace stripped and the result cut to 255 characters. What is left is one
   * contiguous piece of the cleaned name, so the kept characters keep their order.
   */
  function SafeFormatFilename(name: Option<string>): (r: string)
    ensures name.None? || name.value == "" ==> r == ""
    ensures |r| <= MaxFilenameLength
    ensures forall i :: 0 <= i < |r| ==> !IsForbidden(r[i])
  {
    if name.None? || name.value == "" then ""
    else
      var sanitized := Strip(RemoveForbidden(name.value));
      if |sanitized| <= MaxFilenameLength then sanitized else sanitized[..MaxFilenameLength]
  }

  /**
   * The result is a stretch of the name with its forbidden characters removed: whitespace is
   * trimmed from both ends and the rest is cut to 255 characters only when it is longer.
   */
  lemma SafeFormatFilenameIsSlice(name: string)
    ensures exists i, j :: (0 <= i <= j <= |RemoveForbidden(name)|
      && SafeFormatFilename(Some(name)) == RemoveForbidden(name)[i..j])
    ensures |Strip(RemoveForbidden(name))| >= MaxFilenameLength ==> |SafeFormatFilename(Some(name))| == MaxFilenameLength
    ensures |Strip(RemoveForbidden(name))| <= MaxFilenameLength ==> SafeFormatFilename(Some(name)) == Strip(RemoveForbidden(name))
    ensures |Strip(RemoveForbidden(name))| > MaxFilenameLength ==>
      SafeFormatFilename(Some(name)) == Strip(RemoveForbidden(name))[..MaxFilenameLength]
  {
    var cleaned := RemoveForbidden(name);
    if name == "" {
      assert cleaned[0..0] == "";
    } else {
      var t := Strip(cleaned);
      StripSlice(cleaned);
      var i := SkipSpace(cleaned, 0);
      if |t| > MaxFilenameLength {
        assert t[..MaxFilenameLength] == cleaned[i..i + MaxFilenameLength];
      }
    }
  }

  /** A short name that is already clean and trimmed comes back unchanged. */
  lemma SafeFormatFilenameKeepsCleanName(name: string)
    requires 0 < |name| <= MaxFilenameLength
    requires forall i :: 0 <= i < |name| ==> !IsForbidden(name[i])
    requires !IsSpace(name[0]) && !IsSpace(name[|name| - 1])
    ensures SafeFormatFilename(Some(name)) == name
  {
    RemoveForbiddenClean(name);
    StripTrimmed(name);
  }

  /** `test_safe_format_filename`: a plain name passes through. */
  lemma SafeFormatFilenamePlainExample()
    ensures SafeFormatFilename(Some("normal name")) == "normal name"
  {
    var a := "normal name";
    assert forall i :: 0 <= i < |a| ==> !IsForbidden(a[i]);
    assert !IsSpace(a[0]) && !IsSpace(a[|a| - 1]);
    SafeFormatFilenameKeepsCleanName(a);
  }

  /** `test_safe_format_filename`: inner spaces are kept. */
  lemma SafeFormatFilenameSpacesExample()
    ensures SafeFormatFilename(Some("name with spaces")) == "name with spaces"
  {
    var a := "name with spaces";
    assert forall i :: 0 <= i < |a| ==> !IsForbidden(a[i]);
    assert !IsSpace(a[0]) && !IsSpace(a[|a| - 1]);
    SafeFormatFilenameKeepsCleanName(a);
  }

  /** `test_safe_format_filename`: a 300-character name is cut to 255. */
  lemma SafeFormatFilenameLongExample()
    ensures |SafeFormatFilename(Some(seq(300, _ => 'a')))| == MaxFilenameLength
  {
    var long := seq(300, _ => 'a');
    RemoveForbiddenClean(long);
    StripTrimmed(long);
  }

  /** A name whose cleaned form is short and trimmed comes back as that cleaned form. */
  lemma SafeFormatFilenameOfCleaned(name: string)
    requires 0 < |RemoveForbidden(name)| <= MaxFilenameLength
    requires !IsSpace(RemoveForbidden(name)[0])
    requires !IsSpace(RemoveForbidden(name)[|RemoveForbidden(name)| - 1])
    ensures SafeFormatFilename(Some(name)) == RemoveForbidden(name)
  {
    StripTrimmed(RemoveForbidden(name));
  }

  /**
   * `test_safe_format_filename` with `name/with\\invalid:chars*?`, in general: a forbidden
   * character between two clean pieces disappears and the pieces are joined.
   */
  lemma SafeFormatFilenameDropsForbidden(a: string, f: char, b: string)
    requires IsForbidden(f)
    requires forall i :: 0 <= i < |a| ==> !IsForbidden(a[i])
    requires forall i :: 0 <= i < |b| ==> !IsForbidden(b[i])
    requires 0 < |a + b| <= MaxFilenameLength
    requires !IsSpace((a + b)[0]) && !IsSpace((a + b)[|a + b| - 1])
    ensures SafeFormatFilename(Some(a + [f] + b)) == a + b
  {
    RemoveForbiddenAppend(a + [f], b);
    RemoveForbiddenAppend(a, [f]);
    RemoveForbiddenClean(a);
    RemoveForbiddenClean(b);
    assert RemoveForbidden([f]) == "";
    assert RemoveForbidden(a + [f] + b) == a + b;
    SafeFormatFilenameOfCleaned(a + [f] + b);
  }

  /**
   * Cutting to 255 characters can leave a trailing space that a second pass strips, so the
   * function is not idempotent.
   */
  lemma SafeFormatFilenameNotIdempotent()
    ensures var x := seq(254, _ => 'a') + " b";
      SafeFormatFilename(Some(SafeFormatFilename(Some(x)))) != SafeFormatFilename(Some(x))
  {
    var x := seq(254, _ => 'a') + " b";
    RemoveForbiddenClean(x);
    StripTrimmed(x);
    var once := x[..255];
    assert once == seq(254, _ => 'a') + " ";
    assert SafeFormatFilename(Some(x)) == once;
    RemoveForbiddenClean(once);
    SafeFormatFilenameIsSlice(once);
    assert IsSpace(once[|once| - 1]);
    assert Strip(once) != once;
  }

  /** The substring that marks an nhentai.xxx gallery URL. */
  const GalleryMarker: string := "nhentai.xxx/g/"

  /**
   * `is_valid_nhentai_xxx_url`: prefix `https://` unless the URL already starts with `http://`
   * or `https://`, then look for `nhentai.xxx/g/`.
   */
  function IsValidNhentaiXxxUrl(url: string): (valid: bool)
    ensures valid <==> Contains(url, GalleryMarker)
  {
    var full := if StartsWith(url, "http://") || StartsWith(url, "https://") then url else "https://" + url;
    ContainsUnderPrefix("https://", url, GalleryMarker);
    Contains(full, GalleryMarker)
  }

  /** `test_is_valid_nhentai_xxx_url`: gallery URLs with and without a trailing slash. */
  lemma IsValidNhentaiXxxUrlAccepts()
    ensures IsValidNhentaiXxxUrl("https://nhentai.xxx/g/123456/")
    ensures IsValidNhentaiXxxUrl("https://nhentai.xxx/g/123456")
  {
    ContainsMiddle("https://", GalleryMarker, "123456/");
    assert "https://" + GalleryMarker + "123456/" == "https://nhentai.xxx/g/123456/";
    ContainsMiddle("https://", GalleryMarker, "123456");
    assert "https://" + GalleryMarker + "123456" == "https://nhentai.xxx/g/123456";
  }

  /** A string without an `x` cannot contain the marker. */
  lemma NoMarkerWithoutX(s: string)
    requires 'x' !in s
    ensures !IsValidNhentaiXxxUrl(s)
  {
    assert 'x' in GalleryMarker;
    if Contains(s, GalleryMarker) {
      ContainsChars(s, GalleryMarker, 'x');
    }
  }

  /** `test_is_valid_nhentai_xxx_url`: the same path on nhentai.net, or on another domain, is rejected. */
  lemma IsValidNhentaiXxxUrlRejectsOtherSites()
    ensures !IsValidNhentaiXxxUrl("https://nhentai.net/g/123456/")
    ensures !IsValidNhentaiXxxUrl("https://otherdomain.com/g/123456/")
  {
    var a, b := "https://nhentai.net/g/123456/", "https://otherdomain.com/g/123456/";
    assert 'x' !in a && 'x' !in b;
    NoMarkerWithoutX(a);
    NoMarkerWithoutX(b);
  }

  /** `test_is_valid_nhentai_xxx_url`: a non-URL and the empty string are rejected. */
  lemma IsValidNhentaiXxxUrlRejectsJunk()
    ensures !IsValidNhentaiXxxUrl("invalid-url")
    ensures !IsValidNhentaiXxxUrl("")
  {
    var a := "invalid-url";
    assert 'x' !in a;
    NoMarkerWithoutX(a);
    NoMarkerWithoutX("");
  }
}
