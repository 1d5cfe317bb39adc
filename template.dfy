/**
 * The image-path template read off a gallery page's thumbnails. A thumbnail URL such as
 * `http://i4.nhentaimg.com/016/y3v5c6xhgf/cover.jpg` yields the pattern `016/y3v5c6xhgf`:
 * a numeric base directory and an alphanumeric gallery key.
 */
module Template {
  import opened Wrappers
  import opened Text
  import Identifiers

  /** The run of `[a-zA-Z0-9]` characters at the start of `s`, as long as possible. */
  function AlnumRun(s: string): (r: string)
    ensures |r| <= |s| && r == s[..|r|]
    ensures forall i :: 0 <= i < |r| ==> IsAlnum(r[i])
    ensures |r| < |s| ==> !IsAlnum(s[|r|])
  {
    if |s| > 0 && IsAlnum(s[0]) then [s[0]] + AlnumRun(s[1..]) else []
  }

  lemma {:induction false} AlnumRunOf(key: string, tail: string)
    requires forall i :: 0 <= i < |key| ==> IsAlnum(key[i])
    requires |tail| == 0 || !IsAlnum(tail[0])
    ensures AlnumRun(key + tail) == key
  {
    if |key| > 0 {
      assert (key + tail)[1..] == key[1..] + tail;
      AlnumRunOf(key[1..], tail);
    } else {
      assert key + tail == tail;
    }
  }

  /** The literal part of the thumbnail regex between the server digit and the captured group. */
  const ImageHostSuffix: string := ".nhentaimg.com/"

  /** A pattern `<digits>/<alphanumerics>` as the regex group captures it. */
  ghost predicate IsPattern(p: string) {
    exists d, k :: (p == d + "/" + k && IsDigitString(d) && |k| > 0
      && forall i :: 0 <= i < |k| ==> IsAlnum(k[i]))
  }

  /**
   * A match of `i\d\.nhentaimg\.com/(\d+/[a-zA-Z0-9]+)/` anchored at the start of `s`. Both
   * runs are greedy and a run can never end on the `/` that must follow it, so backtracking
   * never finds another match: the runs are the longest ones.
   */
  function MatchHere(s: string): Option<string>
  {
    var n := 2 + |ImageHostSuffix|;
    if |s| >= n && s[0] == 'i' && IsDigit(s[1]) && s[2..n] == ImageHostSuffix then
      var rest := s[n..];
      var d := Identifiers.DigitRun(rest);
      if |d| > 0 && |d| < |rest| && rest[|d|] == '/' then
        var rest2 := rest[|d| + 1..];
        var k := AlnumRun(rest2);
        if |k| > 0 && |k| < |rest2| && rest2[|k|] == '/' then Some(d + "/" + k) else None
      else None
    else None
  }

  /** What a match captures has the shape of the regex group. */
  lemma MatchHereIsPattern(s: string)
    ensures MatchHere(s).Some? ==> IsPattern(MatchHere(s).value)
  {
  }

  /** `re.search(...)`: the leftmost position where the pattern matches. */
  function ThumbnailPattern(src: string): Option<string>
    decreases |src|
  {
    if |src| == 0 then None
    else if MatchHere(src).Some? then MatchHere(src)
    else ThumbnailPattern(src[1..])
  }

  /** The thumbnail regex matches at position `i` of `src`. */
  predicate MatchesAt(src: string, i: nat) {
    i < |src| && MatchHere(src[i..]).Some?
  }

  /**
   * The search reports the match at the leftmost position where the regex matches, and finds
   * nothing exactly when it matches nowhere.
   */
  lemma {:induction false} ThumbnailPatternSpec(src: string)
    ensures ThumbnailPattern(src).None? <==> forall i: nat :: !MatchesAt(src, i)
    ensures ThumbnailPattern(src).Some? ==> exists i: nat :: (MatchesAt(src, i)
      && (forall j: nat :: j < i ==> !MatchesAt(src, j))
      && ThumbnailPattern(src) == MatchHere(src[i..]))
    decreases |src|
  {
    if |src| == 0 {
    } else if MatchHere(src).Some? {
      assert src[0..] == src;
      assert MatchesAt(src, 0);
    } else {
      var t := src[1..];
      ThumbnailPatternSpec(t);
      assert src[0..] == src;
      assert !MatchesAt(src, 0);
      forall i: nat ensures MatchesAt(src, i + 1) <==> MatchesAt(t, i) {
        assert i + 1 < |src| ==> src[i + 1..] == t[i..];
      }
      if ThumbnailPattern(t).None? {
        forall i: nat ensures !MatchesAt(src, i) {
          if i > 0 {
            assert !MatchesAt(t, i - 1);
          }
        }
      } else {
        var i: nat :| MatchesAt(t, i) && (forall j: nat :: j < i ==> !MatchesAt(t, j))
          && ThumbnailPattern(t) == MatchHere(t[i..]);
        assert t[i..] == src[i + 1..];
        forall j: nat | j < i + 1 ensures !MatchesAt(src, j) {
          if j > 0 {
            assert !MatchesAt(t, j - 1);
          }
        }
        assert MatchesAt(src, i + 1);
      }
    }
  }

  lemma {:induction false} ThumbnailPatternIsPattern(src: string)
    ensures ThumbnailPattern(src).Some? ==> IsPattern(ThumbnailPattern(src).value)
    decreases |src|
  {
    if |src| > 0 {
      MatchHereIsPattern(src);
      if MatchHere(src).None? {
        ThumbnailPatternIsPattern(src[1..]);
      }
    }
  }

  /**
   * A thumbnail URL `prefix + "i" + digit + ".nhentaimg.com/" + d + "/" + k + "/" + tail`
   * whose prefix holds no `i` yields `d/k`.
   */
  lemma {:induction false} ThumbnailPatternOf(prefix: string, n: char, d: string, k: string, tail: string)
    requires 'i' !in prefix && IsDigit(n)
    requires IsDigitString(d)
    requires |k| > 0 && forall i :: 0 <= i < |k| ==> IsAlnum(k[i])
    ensures ThumbnailPattern(prefix + ['i', n] + ImageHostSuffix + d + "/" + k + "/" + tail)
      == Some(d + "/" + k)
    decreases |prefix|
  {
    var s := prefix + ['i', n] + ImageHostSuffix + d + "/" + k + "/" + tail;
    if |prefix| == 0 {
      var m := 2 + |ImageHostSuffix|;
      assert s[0] == 'i' && s[1] == n;
      assert s[2..m] == ImageHostSuffix;
      var rest := s[m..];
      assert rest == d + ("/" + k + "/" + tail);
      Identifiers.DigitRunOf(d, "/" + k + "/" + tail);
      var rest2 := rest[|d| + 1..];
      assert rest2 == k + ("/" + tail);
      AlnumRunOf(k, "/" + tail);
      assert MatchHere(s) == Some(d + "/" + k);
    } else {
      assert s[0] == prefix[0] && s[0] != 'i';
      assert s[1..] == prefix[1..] + ['i', n] + ImageHostSuffix + d + "/" + k + "/" + tail;
      ThumbnailPatternOf(prefix[1..], n, d, k, tail);
    }
  }

  /** `pattern.split('/')[0]`: the base directory. */
  function BaseDir(pattern: string): (b: string)
    ensures '/' !in b
    ensures '/' !in pattern ==> b == pattern
  {
    SplitParts(pattern, '/');
    assert '/' !in pattern ==> Split(pattern, '/') == [pattern] by {
      if '/' !in pattern {
        SplitWithoutSep(pattern, '/');
      }
    }
    Split(pattern, '/')[0]
  }

  /** `pattern.split('/')[-1]`: the gallery key. */
  function GalleryKey(pattern: string): (k: string)
    ensures '/' !in k
    ensures '/' !in pattern ==> k == pattern
  {
    SplitParts(pattern, '/');
    assert '/' !in pattern ==> Split(pattern, '/') == [pattern] by {
      if '/' !in pattern {
        SplitWithoutSep(pattern, '/');
      }
    }
    var parts := Split(pattern, '/');
    parts[|parts| - 1]
  }

  /** A pattern splits into exactly its base directory and its gallery key. */
  lemma PatternParts(d: string, k: string)
    requires '/' !in d && '/' !in k
    ensures Split(d + "/" + k, '/') == [d, k]
    ensures BaseDir(d + "/" + k) == d && GalleryKey(d + "/" + k) == k
  {
    SplitAtFirst(d, '/', k);
    SplitWithoutSep(k, '/');
  }

  /** Every matched pattern's base directory is its leading run of digits. */
  lemma BaseDirOfPattern(p: string)
    requires IsPattern(p)
    ensures IsDigitString(BaseDir(p))
    ensures p == BaseDir(p) + "/" + GalleryKey(p)
  {
    var d, k :| p == d + "/" + k && IsDigitString(d) && |k| > 0
      && forall i :: 0 <= i < |k| ==> IsAlnum(k[i]);
    assert forall i :: 0 <= i < |d| ==> d[i] != '/';
    assert forall i :: 0 <= i < |k| ==> k[i] != '/';
    PatternParts(d, k);
  }

  /** The patterns the thumbnails yield, in thumbnail order (only those with `data-src`). */
  function MatchedPatterns(thumbs: seq<Option<string>>): (ps: seq<string>)
    ensures |ps| <= |thumbs|
  {
    if |thumbs| == 0 then []
    else
      var rest := MatchedPatterns(thumbs[..|thumbs| - 1]);
      var last := thumbs[|thumbs| - 1];
      if last.Some? && ThumbnailPattern(last.value).Some? then rest + [ThumbnailPattern(last.value).value]
      else rest
  }

  /** Every pattern the thumbnails yield has the shape `<digits>/<alphanumerics>`. */
  lemma {:induction false} MatchedPatternsArePatterns(thumbs: seq<Option<string>>)
    ensures forall i :: 0 <= i < |MatchedPatterns(thumbs)| ==> IsPattern(MatchedPatterns(thumbs)[i])
  {
    if |thumbs| > 0 {
      var last := thumbs[|thumbs| - 1];
      MatchedPatternsArePatterns(thumbs[..|thumbs| - 1]);
      if last.Some? {
        ThumbnailPatternIsPattern(last.value);
      }
    }
  }

  /** The set `base_dirs` built from `patterns`: the base directory of each one. */
  function BaseDirs(patterns: seq<string>): (dirs: set<string>)
    ensures forall b :: b in dirs <==> exists i :: 0 <= i < |patterns| && b == BaseDir(patterns[i])
  {
    if |patterns| == 0 then {}
    else
      var init := patterns[..|patterns| - 1];
      assert forall i :: 0 <= i < |init| ==> init[i] == patterns[i];
      BaseDirs(init) + {BaseDir(patterns[|patterns| - 1])}
  }

  lemma MatchedPatternsStep(thumbs: seq<Option<string>>, t: nat)
    requires t < |thumbs|
    ensures MatchedPatterns(thumbs[..t + 1]) == MatchedPatterns(thumbs[..t])
      + if thumbs[t].Some? && ThumbnailPattern(thumbs[t].value).Some? then [ThumbnailPattern(thumbs[t].value).value] else []
  {
    assert thumbs[..t + 1][..t] == thumbs[..t];
  }

  lemma BaseDirsSnoc(patterns: seq<string>, p: string)
    ensures BaseDirs(patterns + [p]) == BaseDirs(patterns) + {BaseDir(p)}
  {
    assert (patterns + [p])[..|patterns|] == patterns;
  }

  /**
   * The thumbnail loop: for each `data-src`, the regex group is appended to `patterns` and its
   * leading component added to `baseDirs`.
   */
  method ExtractPatterns(thumbs: seq<Option<string>>) returns (patterns: seq<string>, baseDirs: set<string>)
    ensures patterns == MatchedPatterns(thumbs)
    ensures baseDirs == BaseDirs(patterns)
  {
    patterns, baseDirs := [], {};
    var t := 0;
    while t < |thumbs|
      invariant 0 <= t <= |thumbs|
      invariant patterns == MatchedPatterns(thumbs[..t])
      invariant baseDirs == BaseDirs(patterns)
    {
      MatchedPatternsStep(thumbs, t);
      var thumb := thumbs[t];
      if thumb.Some? {
        var m := ThumbnailPattern(thumb.value);
        if m.Some? {
          var pattern := m.value;
          baseDirs := baseDirs + {BaseDir(pattern)};
          BaseDirsSnoc(patterns, pattern);
          patterns := patterns + [pattern];
        }
      }
      t := t + 1;
    }
    assert thumbs[..t] == thumbs;
  }

  /** `ImagePattern(pattern, base_dir)`. */
  datatype ImagePattern = ImagePattern(pattern: string, baseDir: string)

  /**
   * `ImagePattern(patterns[0], list(base_dirs)[0])` when a pattern was found. Python gives no
   * order to a set, so the base directory is any one of them.
   */
  method ChooseTemplate(patterns: seq<string>, baseDirs: set<string>) returns (t: Option<ImagePattern>)
    requires baseDirs == BaseDirs(patterns)
    ensures t.None? <==> |patterns| == 0
    ensures t.Some? ==> (t.value.pattern == patterns[0]
      && exists i :: 0 <= i < |patterns| && t.value.baseDir == BaseDir(patterns[i]))
  {
    if |patterns| == 0 {
      return None;
    }
    assert BaseDir(patterns[0]) in baseDirs;
    var b :| b in baseDirs;
    assert exists i :: 0 <= i < |patterns| && b == BaseDir(patterns[i]);
    return Some(ImagePattern(patterns[0], b));
  }

  /** When every thumbnail shares one base directory, the choice is that directory. */
  lemma ChosenBaseDirUnique(patterns: seq<string>, t: ImagePattern)
    requires |patterns| > 0
    requires forall i :: 0 <= i < |patterns| ==> BaseDir(patterns[i]) == BaseDir(patterns[0])
    requires t.pattern == patterns[0]
    requires exists i :: 0 <= i < |patterns| && t.baseDir == BaseDir(patterns[i])
    ensures t.baseDir == BaseDir(t.pattern)
  {
  }

  /** The path of the secondary URL form: `base_dir/<pattern.split('/')[-1]>`. */
  function SecondaryPath(t: ImagePattern): (path: string)
    ensures '/' !in t.baseDir ==> BaseDir(path) == t.baseDir && GalleryKey(path) == GalleryKey(t.pattern)
  {
    var path := t.baseDir + "/" + GalleryKey(t.pattern);
    assert '/' !in t.baseDir ==> BaseDir(path) == t.baseDir && GalleryKey(path) == GalleryKey(t.pattern) by {
      if '/' !in t.baseDir {
        PatternParts(t.baseDir, GalleryKey(t.pattern));
      }
    }
    t.baseDir + "/" + GalleryKey(t.pattern)
  }

  /**
   * When the base directory is the pattern's own, the secondary path is the pattern itself, so
   * the third and fourth candidate URLs repeat the first two.
   */
  lemma SecondaryPathIsPrimary(t: ImagePattern)
    requires IsPattern(t.pattern)
    requires t.baseDir == BaseDir(t.pattern)
    ensures SecondaryPath(t) == t.pattern
  {
    BaseDirOfPattern(t.pattern);
  }
}
