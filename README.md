# nhentai.xxx gallery downloader: a verified model

This project models the core of a downloader for nhentai.xxx galleries in Dafny. It has two
downloaders and an author front end.

**The sequential downloader** (`project.py`):
- takes the gallery id from a URL;
- reads the gallery page's lazy-loaded thumbnails to learn the image template (a base
  directory and a gallery key);
- finds the page images one page at a time:
  - it tries six image servers;
  - for each server it tries three extensions;
  - for each extension it tries four URL forms, using HEAD requests;
- stops after five consecutive pages with no image;
- saves every page as `<page:03d><ext>`.

**The asynchronous downloader** (`project_asynchronous_verification_download.py`) differs from
the sequential one in four ways:
- it first probes pages 1–5 on all six servers to choose one working server;
- it then searches pages on that server only;
- it records downloaded files and failed pages as sets that concurrent tasks update;
- it builds a PDF from the sorted files and returns the directory with the sorted failed pages.

It also sizes its concurrency from the CPU count.

**The author front end** (`author_download.py`):
- searches results pages by author, from page 1, until a page fails to load, adds nothing
  new, shows no pagination, or the next page does not answer a HEAD request;
- groups the found galleries by results page and lists them page by page;
- alternatively, lists the gallery links of a single page without duplicates;
- lets the user pick all galleries or a comma-separated selection of 1-based numbers.

**How the outside world is modelled.** The network is represented by oracles that are
parameters of the model:
- `probe(u)`: a HEAD request of `u` answers 200. A request that raises counts as a miss.
- `fetch(u)`: the GET of `u` succeeds and the file is written.
- `get(u)`: the parsed search-results page, or `None` when fetching it fails.
- `page`: the links of the page menu choice 2 asks for, or `None` when that request fails.
- `head(u)`: the HEAD check of the next results page.
- `select(css)`: the text of the first element matching a CSS selector.

Other modelling choices:
- Parsed HTML is represented by the attribute values the code reads, for example the
  thumbnails' `data-src` values or the anchors' `href` values.
- `os.cpu_count()` is a parameter.
- A page search runs until it finds five misses in a row. To show that it terminates, the model
  uses a ghost bound: no URL that answers is longer than `maxLen`. Past `10^maxLen` every
  candidate URL is longer than that, so every page misses.

**Modules** follow the program's components:

| Module | Covers |
|---|---|
| `Text` | Characters, split, strip, lexicographic order |
| `Decimal` | `str(int)`, `int()`, `:03d` |
| `Ordering` | `sorted` |
| `Paths` | `os.path` |
| `Concurrency` | The two sizers |
| `Identifiers` | Gallery id, safe file name, URL check |
| `Template` | Thumbnail pattern extraction |
| `Resolver` | Candidate URLs, `verify_image_url`, per-page resolution, working server |
| `Discovery` | The five-miss page search |
| `Gallery` | Both `fetch_manga_images` |
| `Download` | Both `download_manga`, `download_image`, `convert_to_pdf` |
| `AuthorSearch` | `author_download.py` |

## Model

| member | source | states |
|---|---|---|
| Concurrency.EffectiveCpuCount | project_asynchronous_verification_download.py:83 | An unknown CPU count falls back to 4. A known positive count is used as is. |
| Concurrency.FetchConcurrency | project_asynchronous_verification_download.py:64-91 | Download concurrency, as written. It is 3 up to 25 pages and always between 2 and 10. It is at least 3 when there are two or more CPUs. Beyond 100 pages it is twice the CPU count, capped at 10. |
| Concurrency.VerificationConcurrency | project_asynchronous_verification_download.py:93-118 | Probe concurrency, as written. It is 5 up to 50 URLs and always between 4 and 20. It is at least 5 when there are two or more CPUs. Beyond 200 URLs it is four times the CPU count, capped at 20. |
| Concurrency.FetchConcurrencyMonotonic | project_asynchronous_verification_download.py:78-91 | With two or more CPUs, more pages never gives less download concurrency. |
| Concurrency.VerificationConcurrencyMonotonic | project_asynchronous_verification_download.py:107-118 | With two or more CPUs, more URLs never gives less probe concurrency. |
| Concurrency.FetchConcurrencyOneCpu | project_asynchronous_verification_download.py:78-91 | With one CPU and more than 25 pages the sizer answers 2. That is below the documented minimum of 3, and less than it answers for 25 pages. |
| Concurrency.VerificationConcurrencyOneCpu | project_asynchronous_verification_download.py:107-118 | With one CPU and more than 50 URLs the sizer answers 4. That is below the documented minimum of 5, and less than it answers for 50 URLs. |
| Concurrency.FetchConcurrencyIntended | project_asynchronous_verification_download.py:64-91 | The sizer with its documented floor applied: always between 3 and 10, and 3 up to 25 pages. It equals the as-written sizer whenever there are two or more CPUs. |
| Concurrency.VerificationConcurrencyIntended | project_asynchronous_verification_download.py:93-118 | The sizer with its documented floor applied: always between 5 and 20, and 5 up to 50 URLs. It equals the as-written sizer whenever there are two or more CPUs. |
| Concurrency.IntendedConcurrencyMonotonic | project_asynchronous_verification_download.py:64-118 | Both corrected sizers are monotone in their input for every CPU count. |
| Decimal.Str | project_asynchronous_verification_download.py:135 | The decimal rendering of a page number is all digits and has no leading zero. |
| Decimal.Value | author_download.py:289 | No contract of its own: `int(s)` on a string of digits. ValueOfStr and Pad3Value read rendered numbers back through it. |
| Decimal.ValueOfStr | project_asynchronous_verification_download.py:135 | Reading back the decimal rendering of `n` gives `n`. |
| Decimal.StrLengthGrows | project_asynchronous_verification_download.py:135 | A number of at least `10^k` has more than `k` digits. |
| Decimal.Pad3 | project_asynchronous_verification_download.py:345 | `:03d` gives at least three characters, all digits. |
| Decimal.Pad3Value | project_asynchronous_verification_download.py:345 | The zero-padded rendering of `n` reads back as `n`. |
| Decimal.Pad3Injective | project_asynchronous_verification_download.py:345 | Different pages get different padded names. |
| Decimal.Pad3BelowThousand | project_asynchronous_verification_download.py:345 | Below 1000, the padded name is exactly the three digits of the page. |
| Decimal.Pad3OrderIsNumeric | project_asynchronous_verification_download.py:345 | Below 1000, padded names compare as strings exactly as their pages compare as numbers, whatever follows them. |
| Decimal.DigitsOrder | project_asynchronous_verification_download.py:345 | Below 1000, numeric order is the lexicographic order of the three decimal digits. |
| Decimal.DigitCharOrder | project_asynchronous_verification_download.py:345 | Digit characters are ordered as the digits they denote. |
| Decimal.LexLessThreeDigits | project_asynchronous_verification_download.py:345 | Two different three-digit prefixes decide string order by their first differing digit. |
| Decimal.ParseInt | author_download.py:289 | `int(x.strip())` succeeds exactly when the stripped text is a non-empty digit string, with or without a sign. |
| Decimal.ParseIntOfStr | author_download.py:289 | Parsing the decimal rendering of `n` gives `n`. |
| Ordering.MinExists | project_asynchronous_verification_download.py:303 | Every non-empty finite set has a least element under a strict total order. |
| Ordering.SortSet | project_asynchronous_verification_download.py:456 | `sorted(set)` holds the same elements as the set, with none repeated, in strictly increasing order. |
| Ordering.StrictlySortedUnique | project_asynchronous_verification_download.py:303 | Two strictly sorted sequences with the same elements are equal. |
| Ordering.Insert | project_asynchronous_verification_download.py:303 | Inserting an element adds exactly that element. |
| Ordering.InsertSorted | project_asynchronous_verification_download.py:303 | Inserting an element into a sorted sequence keeps it sorted. |
| Ordering.Sort | project_asynchronous_verification_download.py:303 | `sorted(list)` is a sorted permutation of its input. |
| Ordering.SortOfStrictlySorted | project_asynchronous_verification_download.py:456 | Sorting an already strictly sorted list changes nothing. This is why sorting the sorted file list again at line 303 changes nothing. |
| Ordering.NatLessIsStrictTotal | project_asynchronous_verification_download.py:462 | Numeric order on page numbers is a strict total order. |
| Ordering.LexLessIsStrictTotal | project_asynchronous_verification_download.py:303 | Python's string order is a strict total order. |
| Ordering.SortedPaths | project_asynchronous_verification_download.py:456 | The sorted file list has exactly the set's paths, in strictly increasing string order. |
| Ordering.SortedPages | project_asynchronous_verification_download.py:462 | The sorted page list has exactly the set's pages, in strictly increasing order. |
| Text.IsDigit | project.py:32-38 | No contract of its own: `\d` and `str.isdigit` on one character, ASCII digits only. |
| Text.IsDigitString | project.py:38 | No contract of its own: `part.isdigit()`, a non-empty run of digits. |
| Text.IsAlnum | project.py:130 | No contract of its own: the class `[a-zA-Z0-9]`. |
| Text.IsSpace | project.py:53 | No contract of its own: the ASCII whitespace `strip()` removes. Strip and StripSlice state what stripping does. |
| Text.StartsWith | author_download.py:255 | No contract of its own: `str.startswith`. |
| Text.Contains | project_asynchronous_verification_download.py:468 | No contract of its own: the substring test `in`. ContainsIffOccurs ties it to an occurrence at some position. |
| Text.ContainsIffOccurs | project_asynchronous_verification_download.py:468 | The substring test `in` holds exactly when the substring occurs at some position. |
| Text.Split | project.py:36 | `split` always answers at least one part. |
| Text.SplitParts | project.py:36 | No part of a split contains the separator, and every character of a part comes from the input. |
| Text.JoinSplit | project.py:36 | Joining the parts of a split with its separator gives back the input. |
| Text.SplitWithoutSep | project.py:36 | A string without the separator splits into itself alone. |
| Text.SplitAtFirst | project.py:133 | Splitting `a + sep + b`, where `a` has no separator, gives `a` followed by the parts of `b`. |
| Text.ContainsChars | project_asynchronous_verification_download.py:468 | Every character of a contained substring occurs in the string. |
| Text.ContainsMiddle | project_asynchronous_verification_download.py:468 | A string contains whatever sits in its middle. |
| Text.ContainsUnderPrefix | project_asynchronous_verification_download.py:466-468 | Prefixing a string with text that lacks the substring's first character does not change whether the string contains it. |
| Text.SkipSpace | project.py:53 | The first non-space position from a given index, with only spaces before it. |
| Text.SkipSpaceBack | project.py:53 | The last non-space boundary before a given index, with only spaces after it. |
| Text.Strip | project.py:53 | `strip()` is a slice of its input with no whitespace at either end. |
| Text.StripSlice | project.py:53 | `strip()` removes exactly the leading and trailing whitespace. |
| Text.StripTrimmed | project.py:53 | A string with no whitespace at either end is its own `strip()`. |
| Text.RStripChar | project.py:36 | `rstrip('/')` is a prefix of its input that does not end in `/`, and only `/` characters were removed. |
| Text.LexLess | project_asynchronous_verification_download.py:303 | No contract of its own: Python's `<` on strings, by code point, with a proper prefix the smaller. LexLessIrreflexive, LexLessTransitive, LexLessTotal and LexLessCommonPrefix state its properties. |
| Text.LexLessIrreflexive | project_asynchronous_verification_download.py:303 | No string is less than itself. |
| Text.LexLessTransitive | project_asynchronous_verification_download.py:303 | String order is transitive. |
| Text.LexLessTotal | project_asynchronous_verification_download.py:303 | Of two different strings, one is less than the other. |
| Text.LexLessCommonPrefix | project_asynchronous_verification_download.py:303 | A shared prefix does not affect string order. |
| Paths.RFind | project_asynchronous_verification_download.py:341 | The last position of a character, or -1 when there is none. |
| Paths.RFindAppend | project_asynchronous_verification_download.py:341 | Appending text without the character leaves its last position unchanged. |
| Paths.RFindAt | project_asynchronous_verification_download.py:341 | The last occurrence in `s + c + t`, where `t` has no `c`, is the one between them. |
| Paths.PathJoin | project_asynchronous_verification_download.py:346 | `os.path.join` returns an absolute second part unchanged. Otherwise it joins the two parts with one `/`. |
| Paths.Basename | project_asynchronous_verification_download.py:309 | `os.path.basename` is a suffix of the path with no `/`. |
| Paths.BasenameOfJoin | project_asynchronous_verification_download.py:309-310 | The base name of `os.path.join(dir, name)` is `name` for any directory, with or without a trailing slash, whenever `name` is non-empty and holds no `/`. |
| Paths.SplitExt | project_asynchronous_verification_download.py:341 | `os.path.splitext` cuts the path in two. The extension is empty, or a single dot-led suffix with no other dot and no `/`. |
| Paths.SplitExtOf | project_asynchronous_verification_download.py:341 | The extension of `dir/stem.ext`, where the stem has no dot, is `.ext`. |
| Identifiers.DigitRun | project.py:32 | `\d+` matches the longest run of digits at the start. |
| Identifiers.DigitRunOf | project.py:32 | Digits followed by a non-digit match exactly those digits. |
| Identifiers.GalleryIdMatch | project.py:32-34 | A match is a digit string. GalleryIdMatchSpec states which match it is. |
| Identifiers.GalleryIdMatchSpec | project.py:32-34 | For every input: there is no match exactly when `/g/` followed by a digit occurs nowhere. Otherwise the match is the digit run after the leftmost such `/g/`. |
| Identifiers.NoDigitNoGalleryMatch | project.py:32-34 | Text without digits has no match. |
| Identifiers.GalleryIdAfterPrefix | project.py:32-34 | In `prefix/g/<id><tail>`, where `prefix` holds no `g` and `tail` does not start with a digit, the match is `id`. GalleryIdMatchSpec covers every other input. |
| Identifiers.LastDigitPart | project.py:37-39 | The last all-digit segment, or `None` exactly when no segment is all digits. |
| Identifiers.PathSegments | project.py:36 | The segments of `url.rstrip('/').split('/')` use only characters of the URL. |
| Identifiers.ExtractMangaId | project.py:25-41 | `extract_manga_id`. The id is a digit string. A `/g/<digits>` match wins. Without one, the id is the last all-digit segment of the URL with trailing slashes removed. The function fails exactly when there is no match and no all-digit segment. The code is the same at project_asynchronous_verification_download.py:43-54. |
| Identifiers.GalleryUrlId | project.py:25-41 | A URL `prefix/g/<id><tail>`, where `prefix` holds no `g` and `tail` does not start with a digit, yields `id`. |
| Identifiers.NoDigitNoId | project.py:41 | A URL without digits raises `ValueError`. |
| Identifiers.ExtractMangaIdTrailingSlash | test_project.py:7 | The test case with a trailing slash gives `123456`. |
| Identifiers.ExtractMangaIdNoTrailingSlash | test_project.py:8 | The test case without a trailing slash gives `123456`. |
| Identifiers.ExtractMangaIdNoScheme | test_project.py:9 | The test case without a scheme gives `123456`. |
| Identifiers.ExtractMangaIdWithQuery | test_project.py:12 | The test case with a query string gives `123456`. |
| Identifiers.ExtractMangaIdRejectsPath | test_project.py:15-16 | A path without an id raises. |
| Identifiers.ExtractMangaIdRejectsHost | test_project.py:17-18 | The bare host raises. |
| Identifiers.RemoveForbidden | project.py:53 | Removing `<>:"/\|?*` leaves none of them and never lengthens the name. |
| Identifiers.IsForbidden | project.py:53 | No contract of its own: the nine characters of the class `[<>:"/\\|?*]`. RemoveForbidden and RemoveForbiddenClean state what removing them does. |
| Identifiers.RemoveForbiddenAppend | project.py:53 | Removal works character by character: removing from `a + b` is removing from `a`, then from `b`. |
| Identifiers.RemoveForbiddenClean | project.py:53 | A name without forbidden characters is unchanged. |
| Identifiers.SafeFormatFilename | project.py:43-54 | `safe_format_filename` gives `''` for `None` or `''`. Otherwise the result has at most 255 characters and no forbidden character. |
| Identifiers.SafeFormatFilenameIsSlice | project.py:53-54 | The result is one contiguous piece of the cleaned name. It is the stripped cleaned name when that fits in 255 characters, and otherwise exactly its first 255 characters. |
| Identifiers.SafeFormatFilenameKeepsCleanName | project.py:43-54 | A short name with no forbidden character and no surrounding whitespace is kept as is. |
| Identifiers.SafeFormatFilenamePlainExample | test_project.py:22 | `normal name` is kept. |
| Identifiers.SafeFormatFilenameSpacesExample | test_project.py:23 | `name with spaces` is kept. |
| Identifiers.SafeFormatFilenameLongExample | test_project.py:33-34 | 300 characters are cut to 255. |
| Identifiers.SafeFormatFilenameOfCleaned | project.py:53-54 | When the cleaned name is short and not surrounded by whitespace, the result is the cleaned name. |
| Identifiers.SafeFormatFilenameDropsForbidden | test_project.py:26 | A forbidden character between clean parts is dropped and the parts are joined. |
| Identifiers.SafeFormatFilenameNotIdempotent | project.py:53-54 | Cutting to 255 characters after stripping can leave trailing whitespace, so a second application changes the name. |
| Identifiers.IsValidNhentaiXxxUrl | project_asynchronous_verification_download.py:464-468 | The URL is valid exactly when it contains `nhentai.xxx/g/`. The `https://` prefix never changes the answer. |
| Identifiers.IsValidNhentaiXxxUrlAccepts | test_project.py:38-39 | Gallery URLs with and without a trailing slash are valid. |
| Identifiers.NoMarkerWithoutX | project_asynchronous_verification_download.py:468 | Text without an `x` is never valid. |
| Identifiers.IsValidNhentaiXxxUrlRejectsOtherSites | test_project.py:42-43 | The gallery path on nhentai.net, and on another domain, is rejected. |
| Identifiers.IsValidNhentaiXxxUrlRejectsJunk | test_project.py:44-45 | `invalid-url` and the empty string are rejected. |
| Template.AlnumRun | project.py:130 | `[a-zA-Z0-9]+` matches the longest alphanumeric run at the start. |
| Template.AlnumRunOf | project.py:130 | A key followed by a non-alphanumeric character matches exactly the key. |
| Template.MatchHere | project.py:130 | No contract of its own: the regex anchored at one position. MatchHereIsPattern states the shape of what it captures. |
| Template.MatchHereIsPattern | project.py:130 | A match anchored at a position has the form `<digits>/<alphanumerics>`. |
| Template.ThumbnailPattern | project.py:130-132 | No contract of its own: the leftmost match of the thumbnail regex. ThumbnailPatternSpec, ThumbnailPatternIsPattern and ThumbnailPatternOf state what it finds. |
| Template.ThumbnailPatternSpec | project.py:130-132 | For every input: nothing is found exactly when the regex matches at no position. Otherwise the result is the match at the leftmost position where it matches. |
| Template.ThumbnailPatternIsPattern | project.py:130-132 | Every pattern found in a thumbnail has the form `<digits>/<alphanumerics>`. |
| Template.ThumbnailPatternOf | project.py:129-132 | In `...i<d>.nhentaimg.com/<dir>/<key>/...`, where nothing before the `i` holds an `i`, the pattern found is `<dir>/<key>`. ThumbnailPatternSpec covers every other input. |
| Template.BaseDir | project.py:133 | The base directory holds no `/`. A text without `/` is its own base directory. |
| Template.GalleryKey | project_asynchronous_verification_download.py:137-138 | The key holds no `/`. A text without `/` is its own key. |
| Template.PatternParts | project.py:133 | A pattern `d/k` splits into `[d, k]`. Its base directory is `d` and its key is `k`. |
| Template.BaseDirOfPattern | project.py:133 | A pattern is its digit base directory, a `/`, and its key. |
| Template.MatchedPatterns | project.py:123-136 | There are never more patterns than thumbnails. |
| Template.MatchedPatternsArePatterns | project.py:123-136 | Every collected pattern has the form `<digits>/<alphanumerics>`. |
| Template.BaseDirs | project.py:133-134 | The base-directory set holds exactly the base directories of the patterns. |
| Template.MatchedPatternsStep | project.py:123-135 | One more thumbnail adds its pattern when it has a `data-src` that matches, and nothing otherwise. |
| Template.BaseDirsSnoc | project.py:134 | One more pattern adds its base directory. |
| Template.ExtractPatterns | project_asynchronous_verification_download.py:203-219 | The thumbnail loop collects exactly the matched patterns, in order, and exactly their base directories. The same loop is at project.py:117-136. |
| Template.ChooseTemplate | project_asynchronous_verification_download.py:221-222 | There is no template exactly when no pattern was found. Otherwise the template uses the first pattern and some pattern's base directory. The same choice is at project.py:138-141. |
| Template.ChosenBaseDirUnique | project.py:141 | When all patterns share a base directory, the chosen one is the first pattern's own. |
| Template.SecondaryPath | project_asynchronous_verification_download.py:137-138 | For a base directory without `/`, the secondary path splits back into that base directory and the pattern's key. |
| Template.SecondaryPathIsPrimary | project.py:166 | For a template whose base directory is its pattern's own, `<base_dir>/<key>` is the pattern itself. |
| Resolver.Candidates | project.py:161-168 | Every server and page has twelve candidate URLs. |
| Resolver.CandidateIndex | project.py:162-168 | Candidate `4e + f` is form `f` with extension `e`: extensions are the outer loop and forms the inner one. |
| Resolver.CandidateLength | project.py:164-167 | Every candidate is longer than the decimal page number it contains. |
| Resolver.SecondaryRepeatsPrimary | project.py:164-167 | For a template whose base directory is its pattern's own, forms 3 and 4 repeat forms 1 and 2. |
| Resolver.FormUrl | project_asynchronous_verification_download.py:135-138 | No contract of its own: the four URL forms of one extension, http and https on the primary path, then on the secondary path. FormUrlScheme and FormUrlTail state their shape. |
| Resolver.FormUrlScheme | project_asynchronous_verification_download.py:135-138 | Forms 1 and 3 start with `http://`, forms 2 and 4 with `https://`. |
| Resolver.FormUrlTail | project_asynchronous_verification_download.py:135-138 | Every form ends in `/<page><ext>`. |
| Resolver.ImageHost | project_asynchronous_verification_download.py:135-138 | No contract of its own: the host `<server>.nhentaimg.com` every candidate names. |
| Resolver.CandidateUrl | project_asynchronous_verification_download.py:133-138 | No contract of its own: candidate `i` is form `i % 4` of extension `i / 4`. CandidateIndex states that Candidates lists them in that order. |
| Resolver.FirstIndex | project.py:170-178 | The position of the first element that passes, or `None` exactly when none passes. |
| Resolver.FirstIndexUnique | project.py:170-178 | The first passing position is determined by the elements. |
| Resolver.Verified | project_asynchronous_verification_download.py:120-149 | The verification result carries the page it was asked about, and a URL it reports answers 200. |
| Resolver.VerifiedSpec | project_asynchronous_verification_download.py:133-149 | There is no URL exactly when all twelve candidates miss, and then server and extension are `None` too. A found URL is the first of the twelve candidates, in the order tried, that answers 200; the result names the server and that candidate's own extension. |
| Resolver.VerifyImageUrl | project_asynchronous_verification_download.py:120-149 | The probing loop over extensions and forms returns the first candidate that answers, with its server and extension. When none answers it returns an empty result. |
| Resolver.TryExtension | project_asynchronous_verification_download.py:134-147 | Probing one extension's four forms either finds the result of `verify_image_url` or extends the prefix of misses by four. |
| Resolver.FirstServerUrl | project.py:152-183 | A URL found by trying the servers in order answers 200. FirstServerUrlSpec states which one it is. |
| Resolver.PageResolution | project.py:150-183 | A URL recorded for a page answers 200. PageResolutionIff states when there is one. |
| Resolver.FirstServerUrlSpec | project.py:152-183 | Trying servers in order finds nothing exactly when every server misses. Otherwise it finds the URL of the first server that answers. |
| Resolver.PageResolutionIff | project.py:150-189 | A page is missed exactly when every candidate on every server misses. A found URL answers 200. |
| Resolver.ExtensionBlock | project.py:162-168 | Each extension appends its four forms to the candidate list. |
| Resolver.ServerTestUrls | project.py:161-168 | The `test_urls` loop builds exactly the candidate list. |
| Resolver.ResolvePage | project.py:151-183 | The server loop resolves a page to the URL of the first server that answers. |
| Resolver.ProbeServer | project.py:170-180 | Probing one server's candidates in order finds that server's verified URL. |
| Resolver.FirstServerUrlAt | project.py:152-183 | When server `s` is the first to answer, resolution answers its URL. |
| Resolver.ProbeGrid | project_asynchronous_verification_download.py:227-242 | The initial verification covers 30 results: 5 pages on 6 servers. |
| Resolver.GridIndex | project_asynchronous_verification_download.py:232-242 | Result `6(page-1)+s` is server `s` on `page`: pages are the outer loop. |
| Resolver.GridRowStep | project_asynchronous_verification_download.py:233-242 | Each server appends its result to the page's row. |
| Resolver.WorkingServer | project_asynchronous_verification_download.py:231-255 | There is no working server exactly when every server misses pages 1–5. Otherwise it is server `s` of the first hit `(page, s)` in page-major order: `s` answers `page`, and every server misses every earlier page and `page` on every server before `s`. |
| Resolver.ServerOfFirstHit | project_asynchronous_verification_download.py:248-252 | Nothing when no result has a URL. Otherwise the server of a result that has a URL and that every earlier result lacks. |
| Resolver.FindWorkingServer | project_asynchronous_verification_download.py:227-255 | Gathering the grid and scanning it yields the working server. |
| Resolver.FirstServerWithUrl | project_asynchronous_verification_download.py:248-252 | The scan returns the server of the first result with a URL. |
| Resolver.GatherGrid | project_asynchronous_verification_download.py:231-245 | The gathered results are the grid in task order. |
| Resolver.VerifyPageOnAllServers | project_asynchronous_verification_download.py:233-242 | One page's six tasks give that page's row of the grid. |
| Discovery.Collected | project.py:146-191 | The pages kept before the stop are exactly the pages from 1 that answered, each with its URL. |
| Discovery.StopsAt | project.py:150-189 | A search never stops before page 5, and it stops on a page that missed. |
| Discovery.MissRun | project.py:150-189 | No contract of its own: pages `p - 4` to `p` all miss, the run that brings `consecutive_failures` to five. StopsAt and StopWithinFive use it. |
| Discovery.Searching | project.py:150-191 | No contract of its own: the loop invariant of the 5-miss counter. `consecutive_failures` pages in a row have just missed, the page before them answered, and no earlier page ended five misses. SearchStart, SearchHit and SearchMiss show that the loop keeps it. |
| Discovery.SearchStart | project.py:146-150 | The counter's invariant holds at page 1 with no misses. |
| Discovery.SequentialHit | project.py:150-183 | Every URL the sequential downloader records for a page answers 200. |
| Discovery.AsyncHit | project_asynchronous_verification_download.py:265-276 | Every URL the single-server search records for a page answers 200. |
| Discovery.StopsAtUnique | project.py:150-191 | The search stops at exactly one page. |
| Discovery.StopWithinFive | project.py:185-189 | When nothing answers past page `h`, the search stops by page `h + 5`. |
| Discovery.FirstFiveMiss | project.py:185-189 | When pages 1–5 all miss, the search stops at page 5 with nothing. |
| Discovery.GapHidesLaterPages | project.py:185-189 | A gap of five missing pages ends the search: page 8 after a gap at pages 3–7 is never kept. |
| Discovery.SameHitsSameSearch | project.py:146-191 | Two searches that see the same answers stop at the same page with the same URLs. |
| Discovery.SearchHit | project.py:173-177 | A hit resets the miss count and the search goes on. |
| Discovery.SearchMiss | project.py:185-189 | A miss adds one. The fifth miss in a row is the stop. |
| Discovery.CollectedStep | project.py:174 | A hit adds its page and URL. A miss adds nothing. |
| Discovery.FarPageMisses | project.py:164-167 | Past `10^maxLen` every candidate is longer than any answering URL, so the page misses. |
| Discovery.AsyncPagesBounded | project_asynchronous_verification_download.py:265-285 | The single-server search finds nothing past `10^maxLen`. |
| Discovery.SequentialPagesBounded | project.py:150-191 | The all-server search finds nothing past `10^maxLen`. |
| Discovery.RecordPage | project.py:173-191 | One step of the loop keeps the kept pages equal to the pages found so far. It resets or increments the miss count, and it reports the stop on the fifth miss. |
| Discovery.DiscoverSequential | project.py:146-191 | The sequential loop stops at the first run of five misses and keeps exactly the pages found before it. |
| Discovery.CheckPage | project_asynchronous_verification_download.py:266-273 | Checking a page on the working server gives that server's verified URL. |
| Discovery.DiscoverAsync | project_asynchronous_verification_download.py:260-285 | The single-server loop stops at the first run of five misses and keeps exactly the pages found before it. |
| Gallery.FetchMangaImagesSequential | project.py:56-204 | The second result is always `[]`. A failed gallery page or no pattern gives `{}`. Otherwise the template is the first pattern and the pages are exactly those the five-miss search keeps. |
| Gallery.FetchMangaImagesAsync | project_asynchronous_verification_download.py:151-298 | As the sequential version, except that no working server gives `{}`. Otherwise the pages are exactly those that the search on the working server keeps. |
| Gallery.NoWorkingServerNothingFound | project.py:185-189 | When no server answers pages 1–5, the sequential search also stops at page 5 with nothing. |
| Gallery.SingleServerSearchesAgree | project.py:150-191 | When only one server ever answers, the sequential and asynchronous searches agree page by page, on the stop and on the URLs. |
| Download.ImageExt | project_asynchronous_verification_download.py:341-343 | The saved extension is the URL's extension, or `.webp` when it has none. It always starts with a dot and has no `/`. |
| Download.FileName | project_asynchronous_verification_download.py:345 | A file name starts with a digit, is longer than three characters, and holds no `/`. |
| Download.FilePath | project_asynchronous_verification_download.py:345-346 | The base name of a file's path is its file name, whatever the directory. |
| Download.Downloads | project_asynchronous_verification_download.py:334-339 | A page downloads only when its fetch succeeds and its URL has a `/`; the model requires a host part, as `img_url.split('/')[2]` does. |
| Download.FormUrlExtension | project_asynchronous_verification_download.py:135-138 | Every candidate URL ends with the extension it was built with. |
| Download.VerifiedExtensionIsSaved | project_asynchronous_verification_download.py:145 | A verified URL is saved under the extension the verification recorded. |
| Download.FileNameDeterminesPage | project_asynchronous_verification_download.py:345 | Two pages never share a file name. |
| Download.FilePathDeterminesPage | project_asynchronous_verification_download.py:345-346 | Two pages never share a file path. |
| Download.FilePathOrder | project_asynchronous_verification_download.py:345-346 | Below page 1000, file paths sort exactly as their page numbers. |
| Download.FilePathUnderDir | project_asynchronous_verification_download.py:346 | The path is the directory, a `/` when needed, and the padded file name. |
| Download.FileOrderPast999 | project_asynchronous_verification_download.py:345 | From page 1000 on, string order disagrees with page order: page 1000's file sorts before page 999's. |
| Download.Saved | project_asynchronous_verification_download.py:351 | No contract of its own: the `downloaded_files` set, the paths of the pages that download. SavedMembers and SavedStep state its members. |
| Download.SavedMembers | project_asynchronous_verification_download.py:351 | The saved files are exactly the paths of the pages that downloaded. |
| Download.SavedStep | project_asynchronous_verification_download.py:351 | One more page adds its path exactly when it downloads. |
| Download.DownloadedFiles | project_asynchronous_verification_download.py:351 | No contract of its own: the paths of the pages that download. DownloadedFilesMembers states its members. |
| Download.DownloadedFilesMembers | project_asynchronous_verification_download.py:351 | `downloaded_files` holds exactly the paths of the pages whose fetch succeeded. |
| Download.FailedPages | project_asynchronous_verification_download.py:354-356 | Only pages that were asked for are failed. DownloadPartition states which. |
| Download.DownloadStep | project_asynchronous_verification_download.py:351-356 | One more page adds its path to the files or its number to the failures, and never both. |
| Download.FailedStep | project_asynchronous_verification_download.py:356 | One more page adds its number to the failures exactly when it does not download. |
| Download.DownloadPartition | project_asynchronous_verification_download.py:351-356 | A page's file is saved exactly when the page is not failed. |
| Download.DownloadState.constructor | project_asynchronous_verification_download.py:427-428 | Both records start empty. |
| Download.DownloadState.DownloadImage | project_asynchronous_verification_download.py:321-356 | The task adds the page's file on success and the page number on failure. Nothing else changes. |
| Download.DownloadState.DownloadAll | project_asynchronous_verification_download.py:437-452 | After all tasks, the records have grown by exactly the downloaded files and the failed pages, whatever the order. |
| Download.SameMap | project_asynchronous_verification_download.py:438 | Two maps with the same keys and values are equal. |
| Download.ConvertToPdf | project_asynchronous_verification_download.py:300-319 | No PDF exactly when there are no files. Otherwise the PDF is at `<dir>/<basename(dir)>.pdf` and its images are the files, sorted. |
| Download.PdfPath | project_asynchronous_verification_download.py:309-310 | The PDF's path ends in `.pdf`. |
| Download.PdfOfSortedSet | project_asynchronous_verification_download.py:456 | Converting the sorted files keeps their order. |
| Download.PdfFollowsPageOrder | project_asynchronous_verification_download.py:456 | Below page 1000, the PDF's images follow page order. |
| Download.FirstFound | project_asynchronous_verification_download.py:380-385 | The first selector that matches gives the title. There is none exactly when no selector matches. |
| Download.FirstFoundSnoc | project_asynchronous_verification_download.py:380-385 | A later selector is used only when all earlier ones missed. |
| Download.SelectTitle | project_asynchronous_verification_download.py:371-385 | The selector loop keeps the first element found. |
| Download.MangaName | project_asynchronous_verification_download.py:387-397 | The gallery name is safe (at most 255 characters, no forbidden character). It is `''` when neither a title nor `#info` is found. |
| Download.MangaDir | project_asynchronous_verification_download.py:399 | The gallery directory ends in `<id>_<name>`. |
| Download.MangaDirDeterminesId | project_asynchronous_verification_download.py:399 | Different gallery ids never share a gallery directory. |
| Download.MangaPdfPath | project_asynchronous_verification_download.py:309-310 | The PDF of a gallery directory is `<dir>/<id>_<name>.pdf`. |
| Download.MangaDirShape | project_asynchronous_verification_download.py:399 | The gallery directory does not end in `/`, and its base name is `<id>_<name>`. |
| Download.DownloadsBase | project_asynchronous_verification_download.py:361 | The downloads base directory ends in `downloads`, not in `/`. |
| Download.StemWithoutSlash | project_asynchronous_verification_download.py:399 | `<id>_<name>` has no `/`. |
| Download.DownloadMangaAsync | project_asynchronous_verification_download.py:358-462 | A bad URL raises. A title page that cannot be fetched raises. No pages gives `(None, [])`. Otherwise the result is the gallery directory and the sorted failed pages, with a PDF exactly when some file was saved. |
| Download.SaveGallery | project_asynchronous_verification_download.py:427-462 | After the downloads: the sorted failed pages, and a PDF of the sorted files exactly when some file was saved. |
| Download.FailuresInOrder | project.py:245-273 | There are never more failures than pages. FailuresInOrderSpec states which pages they are. |
| Download.FailuresInOrderSpec | project.py:245-273 | The failure list holds exactly the pages that did not download. It is increasing when the pages are taken in increasing order. |
| Download.SavedInOrder | project.py:245-267 | There are never more files than pages. SavedInOrderMembers states which files they are. |
| Download.SavedInOrderMembers | project.py:245-267 | The file list holds exactly the paths of the pages that downloaded. |
| Download.SequentialFailuresSorted | project.py:245-273 | The sequential failure list equals the sorted failure set of the asynchronous downloader. |
| Download.SequentialSavesSameFiles | project.py:245-267 | The sequential downloader saves the same files as the asynchronous one. |
| Download.InOrderStep | project.py:245-273 | One more page appends to exactly one of the two lists, and a new failure was not listed before. |
| Download.FailureStep | project.py:270-273 | One more page appends its number to the failures exactly when it fails. |
| Download.SaveStep | project.py:267 | One more page appends its path exactly when it downloads. |
| Download.NotYetFailed | project.py:272 | In increasing page order, a failing page is never already in the list, so the `not in` guard always holds. |
| Download.SavePagesInOrder | project.py:245-273 | The download loop, in page order, builds exactly the failure list and the file list. |
| Download.SavePage | project.py:246-273 | One pass of the loop: a page that downloads appends its file, and one that fails appends its number unless it is already listed. Nothing else changes. |
| Download.DownloadMangaSequential | project.py:206-287 | A bad URL or no pages gives `(None, [])`. Otherwise the result is `manga_<id>` under the working directory, with the failures in page order. |
| AuthorSearch.MaxPageNumber | author_download.py:40 | The greatest numeric link text. There is none exactly when no link text is all digits. |
| AuthorSearch.GetTotalPages | author_download.py:27-43 | `get_total_pages` answers 1 without pagination or numeric links. Otherwise it answers the greatest numeric page link. |
| AuthorSearch.PageUrl | author_download.py:74-77 | From page 2 on, the page fetched is the one the HEAD request checked before moving to it. |
| AuthorSearch.PageHrefs | author_download.py:83-93 | No contract of its own: the gallery links of a results page, none when it did not load. Accumulated and Continues read the pages through it. |
| AuthorSearch.HeadUrl | author_download.py:143 | No contract of its own: `...&page=<n>` for the page after the current one. |
| AuthorSearch.Urls | author_download.py:96 | The URLs of the search results, in order. |
| AuthorSearch.AddNew | author_download.py:92-99 | Scanning one results page only appends to the list, and it tags the new entries with the current page. |
| AuthorSearch.AddNewMembers | author_download.py:92-99 | After the scan, the URLs are the old ones plus those the page lists. Each new one is listed on the page and was not known before. |
| AuthorSearch.Lists | author_download.py:92-96 | No contract of its own: a gallery URL one of the page's links gives. AddNewMembers and AddNewNothingNew use it. |
| AuthorSearch.AddNewNothingNew | author_download.py:96-105 | A page that lists only known galleries adds nothing. |
| AuthorSearch.AddNewDistinct | author_download.py:96 | The scan never adds a duplicate URL. |
| AuthorSearch.Accumulated | author_download.py:68-99 | No contract of its own: the results after scanning pages 1 to `n`. AccumulatedPages, AccumulatedDistinct, AccumulatedComplete and AccumulatedFirstSeen state its properties. |
| AuthorSearch.Continues | author_download.py:82-160 | No contract of its own: the search goes past page `p` when the page loads (84, 158-160), adds a URL (102-105), shows pagination (131) and the HEAD of page `p + 1` answers 200 (143-150). |
| AuthorSearch.SearchStopsAt | author_download.py:72-160 | No contract of its own: page `s` does not continue and every earlier page does. SearchStopsAtUnique and SearchAuthor use it. |
| AuthorSearch.SearchStopsAtUnique | author_download.py:72-160 | The search stops at exactly one page. |
| AuthorSearch.AccumulatedPages | author_download.py:97 | Every entry's page is between 1 and the current page, and the pages never decrease along the list. |
| AuthorSearch.AccumulatedDistinct | author_download.py:96-97 | The accumulated URLs are pairwise distinct. |
| AuthorSearch.AccumulatedComplete | author_download.py:92-99 | Every gallery listed on a scanned page is in the result. |
| AuthorSearch.AccumulatedFirstSeen | author_download.py:96-97 | Each URL is tagged with the first page that lists it. |
| AuthorSearch.DuplicatePageStops | author_download.py:102-105 | A page with nothing new stops the search and adds nothing. |
| AuthorSearch.ScanGalleries | author_download.py:90-99 | The gallery loop appends exactly the new URLs. `found_manga_on_page` is set exactly when something was added. |
| AuthorSearch.SearchPage | author_download.py:74-160 | One round: the list after the page, and whether the search goes on. |
| AuthorSearch.SearchAuthor | author_download.py:45-167 | `search_author` stops at the first page that does not continue, and reports that page. It returns exactly the accumulated results of the pages up to that one. |
| AuthorSearch.GalleryUrls | author_download.py:199-200 | The anchors whose `href` matches `/g/<digits>`, as full URLs. |
| AuthorSearch.IsGalleryHref | author_download.py:199 | No contract of its own: the `href=re.compile(r'/g/\d+')` filter, an `href` in which `/g/` followed by a digit occurs. GalleryIdMatchSpec states when that is. |
| AuthorSearch.MangaUrl | author_download.py:200 | No contract of its own: `https://nhentai.xxx` followed by the `href`, as at line 95 too. |
| AuthorSearch.Unique | author_download.py:201-202 | De-duplication keeps every URL once and nothing else. |
| AuthorSearch.IndexOf | author_download.py:201 | The first position of a URL. |
| AuthorSearch.IndexOfPrefix | author_download.py:201 | Appending does not move the first position of an earlier URL. |
| AuthorSearch.UniqueKeepsFirstOccurrenceOrder | author_download.py:199-202 | The de-duplicated list is in order of first occurrence. |
| AuthorSearch.GetPageMangaUrls | author_download.py:169-204 | `get_page_manga_urls` returns the page's gallery URLs without duplicates, in order of first occurrence. |
| AuthorSearch.PagesOf | author_download.py:237-241 | The group keys are exactly the pages that occur. |
| AuthorSearch.PageGroup | author_download.py:237-241 | A page's group is never longer than the data. PageGroupAbsent and PageGroupSnoc state its contents. |
| AuthorSearch.Listing | author_download.py:246-250 | No contract of its own: the groups of the given pages, one after the other. ListingPermutes, ListingSnoc and ListingOfOrderedData state its properties. |
| AuthorSearch.PageGroupAbsent | author_download.py:237-241 | A page with no entry has an empty group. |
| AuthorSearch.PageGroupSnoc | author_download.py:238-241 | One more entry appends its URL to its own page's group only. |
| AuthorSearch.ListingSnocUnlisted | author_download.py:246-250 | An entry for a page that is not listed does not change the listing. |
| AuthorSearch.ListingSnoc | author_download.py:246-250 | One more entry adds its URL to the listing exactly when its page is listed. |
| AuthorSearch.ListingPermutes | author_download.py:237-250 | Listing groups page by page is a permutation of the data. |
| AuthorSearch.ListingEmpty | author_download.py:246-250 | No data gives an empty listing. |
| AuthorSearch.ListingSnocLast | author_download.py:246-250 | An entry for the greatest page so far is listed last. |
| AuthorSearch.ListingOfOrderedData | author_download.py:237-250 | Data in page order is listed in its own order. |
| AuthorSearch.GroupingPermutes | author_download.py:237-251 | Grouping and listing by sorted page is a permutation of the search results. |
| AuthorSearch.GroupingKeepsOrder | author_download.py:237-251 | For data in page order, grouping and listing gives the data's own order. |
| AuthorSearch.SearchResultsListedInOrder | author_download.py:228-251 | The indexed list of an author search is exactly the search results in order. |
| AuthorSearch.ListingStep | author_download.py:246-250 | Each page appends its group to the listing. |
| AuthorSearch.GroupByPage | author_download.py:237-241 | The grouping loop gives one group per page that occurs, holding that page's URLs in order. |
| AuthorSearch.ListGroups | author_download.py:246-251 | The listing loop appends the groups in the given page order. |
| AuthorSearch.IndexManga | author_download.py:237-251 | The indexed list is the listing of the groups by sorted page. |
| AuthorSearch.AuthorMangaList | author_download.py:225-251 | Choice 1: nothing when the search finds nothing. Otherwise the indexed list is the search results in order. |
| AuthorSearch.PageMangaList | author_download.py:253-270 | Choice 2, on the typed URL stripped of surrounding whitespace: nothing for a URL outside `https://nhentai.xxx/`. A failed page request ends the program with an error, as `raise_for_status` does outside any `try` (193, 257). A page without galleries gives nothing. Otherwise the result is the page's distinct gallery URLs. |
| AuthorSearch.ParseEach | author_download.py:289 | A successful parse has one index per piece. ParseEachSpec states their values. |
| AuthorSearch.ParseEachSpec | author_download.py:289 | Parsing fails exactly when one piece fails. Otherwise each index is its number minus one. |
| AuthorSearch.ParseIndices | author_download.py:289-295 | The comprehension fails on the first piece that is not an integer. Otherwise it gives each piece's number minus one. |
| AuthorSearch.Picked | author_download.py:290-292 | There are never more picks than indices. |
| AuthorSearch.PickedAppend | author_download.py:290-292 | Picking from concatenated indices is picking from each part, in turn. |
| AuthorSearch.PickedOne | author_download.py:291-292 | An index is picked exactly when it is in range. |
| AuthorSearch.PickedInRange | author_download.py:290-292 | With every index in range, the picks are exactly the indexed URLs, in order, repeats included. |
| AuthorSearch.SelectManga | author_download.py:287-295 | A selection with a non-integer aborts. Otherwise it picks the in-range indices in order. |
| AuthorSearch.PickAll | author_download.py:290-292 | The selection loop appends exactly the in-range picks. |
| AuthorSearch.PickedStep | author_download.py:290-292 | Each index appends its URL when it is in range. |
| AuthorSearch.RejectExample | author_download.py:289-295 | `1,x` is rejected. |
| AuthorSearch.SelectionExample | author_download.py:285-292 | Selecting `1,3,5` from four URLs picks the first and third, and ignores the fifth. |
| AuthorSearch.ChooseDownloads | author_download.py:276-302 | Choice 1 takes everything. Choice 2 takes the parsed selection. Any other choice, a parse error or an empty result gives nothing to download. |

## Left out

- Network and HTML parsing are not modelled. HTTP requests, headers, timeouts and retries
  become the oracles `probe`, `fetch`, `get`, `head` and `select`. HTML parsing becomes the
  attribute values the code reads.
- Time and randomness (`asyncio.sleep`) are not modelled.
- The network is modelled as unchanging: each oracle is a function, so asking the same URL twice
  gives the same answer. The asynchronous downloader probes pages 1–5 once to choose the server
  (project_asynchronous_verification_download.py:231-245) and again in its page search
  (263-276); the model assumes both see the same answers. `Gallery.NoWorkingServerNothingFound`
  and `Gallery.SingleServerSearchesAgree` rely on this.
- `asyncio` concurrency and semaphores are not modelled. Concurrent `download_image` tasks only
  add to the two sets, so the model runs them in page order. The final sets do not depend on the
  order. Scheduling and interleaving are not modelled.
- File writing and PDF creation are not modelled:
  - `makedirs` and writing the image bytes are left out.
  - `img2pdf` is left out.
  - A PDF is represented by its path and its ordered image list.
  - A failure while writing the PDF is not modelled, because it is caught and only printed.
- Printing, `input()` and the traceback output are not modelled. The user's answers are string
  parameters.
- The menus in `main` of the two downloaders are not modelled, apart from the URL check they
  call. This covers project.py:289-319 and project_asynchronous_verification_download.py:470-495.
  - The `https://` normalisation at project.py:300-305 is left out.
- The author front end's final downloads are not modelled: the `parallel_download` module that
  `author_download.py` imports is not part of this model.
- The PDF collection into `<download_dir>/pdf` at author_download.py:319-345 is not modelled; it
  is only filesystem walking and copying.
- The `all_numbers` list in `search_author` (author_download.py:133-137) is computed and never
  used, so it is left out; it plays no part in deciding whether the search goes on.
- Unicode is not modelled:
  - `str.isdigit`, `\d` and `strip()` are modelled on ASCII digits and ASCII/C0 whitespace;
    Python accepts other Unicode digits and spaces.
  - `int()` does not accept `_` separators in the model.
- `list(base_dirs)[0]` depends on Python's set iteration order, which the language does not
  specify. `Template.ChooseTemplate` picks some base directory of the set and says no more.
- `Discovery.DiscoverSequential` and `Discovery.DiscoverAsync` take a ghost `lastPage`, the page
  after which nothing answers, and `Gallery` derives it from a bound on the length of answering
  URLs. The real loops need no such bound; without one the model could not prove they end.
- `AuthorSearch.SearchAuthor` takes a ghost `lastPage` beyond which the next-page HEAD check
  fails, for the same reason.
- `Download.PdfFollowsPageOrder` holds only below page 1000. From page 1000 on, string order and
  page order differ (`Download.FileOrderPast999`), and the code sorts by string.
- `Concurrency.FetchConcurrencyMonotonic`: stated only for two or more CPUs, because with one CPU
  the as-written sizer is not monotone (see Findings).
- `Concurrency.VerificationConcurrencyMonotonic`: stated only for two or more CPUs, for the same
  reason.
- `Download.DownloadMangaAsync`: it takes the result of `fetch_manga_images` as a parameter,
  connected to the search by `Gallery.FetchMangaImagesAsync`. It does not call the search itself.
- `Download.DownloadMangaSequential`: it takes the result of `fetch_manga_images` as a parameter,
  connected to the search by `Gallery.FetchMangaImagesSequential`. It does not call the search
  itself.
- The test file imports `is_valid_nhentai_xxx_url` from `project.py`, which does not define it.
  The model follows the definition at project_asynchronous_verification_download.py:464-468.

## Findings

| source | as written | input that shows it | evidently intended | confidence | as-written member | corrected member |
|---|---|---|---|---|---|---|
| project_asynchronous_verification_download.py:83-91 | beyond 25 pages the download concurrency is `min(…, cpu_count * 2)`, with no floor | `os.cpu_count() == 1`, 26 pages: answers 2, below the documented minimum of 3 (line 69), and less than the 3 answered for 25 pages | the documented minimum of 3 holds on every machine | not executed | Concurrency.FetchConcurrencyOneCpu | Concurrency.FetchConcurrencyIntended |
| project_asynchronous_verification_download.py:110-118 | beyond 50 URLs the probe concurrency is `min(…, cpu_count * 4)`, with no floor | `os.cpu_count() == 1`, 51 URLs: answers 4, below the documented minimum of 5 (line 98), and less than the 5 answered for 50 URLs | the documented minimum of 5 holds on every machine | not executed | Concurrency.VerificationConcurrencyOneCpu | Concurrency.VerificationConcurrencyIntended |

The corrected sizers agree with the as-written ones on every machine with two or more CPUs
(`Concurrency.FetchConcurrencyIntended`, `Concurrency.VerificationConcurrencyIntended`). They
are monotone for every CPU count (`Concurrency.IntendedConcurrencyMonotonic`). Concurrency
limits do not affect any result of the model, so nothing else depends on the choice between the
two.
