/**
 * The POSIX path helpers the downloaders use: `os.path.join`, `os.path.basename` and
 * `os.path.splitext`, on `/`-separated strings.
 */
module Paths {
  import opened Text

  /** `s.rfind(c)`: the last position of `c` in `s`, or -1. */
  function RFind(s: string, c: char): (i: int)
    ensures -1 <= i < |s|
    ensures i >= 0 ==> s[i] == c
    ensures forall j :: i < j < |s| ==> s[j] != c
  {
    if |s| == 0 then -1
    else if s[|s| - 1] == c then |s| - 1
    else RFind(s[..|s| - 1], c)
  }

  /** Appending text without `c` leaves the last `c` where it was. */
  lemma {:induction false} RFindAppend(s: string, t: string, c: char)
    requires c !in t
    ensures RFind(s + t, c) == RFind(s, c)
    decreases |t|
  {
    if |t| == 0 {
      assert s + t == s;
    } else {
      assert (s + t)[..|s + t| - 1] == s + t[..|t| - 1];
      assert c !in t[..|t| - 1] by {
        assert forall k :: 0 <= k < |t| - 1 ==> t[..|t| - 1][k] == t[k];
      }
      RFindAppend(s, t[..|t| - 1], c);
    }
  }

  /** The last `c` of `s + [c] + t`, when `t` has none, is the one between them. */
  lemma RFindAt(s: string, c: char, t: string)
    requires c !in t
    ensures RFind(s + [c] + t, c) == |s|
  {
    RFindAppend(s + [c], t, c);
  }

  /** `os.path.join(a, b)`: `b` if it is absolute, otherwise `a` and `b` with one `/` between. */
  function PathJoin(a: string, b: string): (p: string)
    ensures |b| > 0 && b[0] == '/' ==> p == b
    ensures (|b| == 0 || b[0] != '/') && |a| > 0 && a[|a| - 1] != '/' ==> p == a + "/" + b
  {
    if |b| > 0 && b[0] == '/' then b
    else if |a| == 0 || a[|a| - 1] == '/' then a + b
    else a + "/" + b
  }

  /** `os.path.basename(p)`: what follows the last `/`. */
  function Basename(p: string): (b: string)
    ensures '/' !in b
    ensures exists k :: 0 <= k <= |p| && b == p[k..]
  {
    var i := RFind(p, '/') + 1;
    assert forall j :: 0 <= j < |p[i..]| ==> p[i..][j] == p[i + j];
    p[i..]
  }

  lemma BasenameOfJoin(a: string, b: string)
    requires '/' !in b && |b| > 0
    ensures Basename(PathJoin(a, b)) == b
  {
    if |a| > 0 && a[|a| - 1] != '/' {
      RFindAt(a, '/', b);
      assert (a + "/" + b)[|a| + 1..] == b;
    } else {
      RFindAppend(a, b, '/');
      assert RFind(a, '/') == |a| - 1 by {
        if |a| > 0 {
          RFindAt(a[..|a| - 1], '/', []);
          assert a[..|a| - 1] + ['/'] + [] == a;
        }
      }
      assert (a + b)[|a|..] == b;
    }
  }

  /**
   * `os.path.splitext(p)`: the extension is the part from the last `.` of the last path
   * component, unless that component has only dots before it (a hidden file keeps its name).
   */
  function SplitExt(p: string): (r: (string, string))
    ensures r.0 + r.1 == p
    ensures r.1 == [] || (r.1[0] == '.' && '/' !in r.1 && '.' !in r.1[1..])
  {
    var sep := RFind(p, '/');
    var dot := RFind(p, '.');
    if dot > sep && exists k :: sep + 1 <= k < dot && p[k] != '.' then
      assert forall j :: 1 <= j < |p[dot..]| ==> p[dot..][j] == p[dot + j];
      assert p[..dot] + p[dot..] == p;
      (p[..dot], p[dot..])
    else (p, [])
  }

  /** The extension of `dir/stem.ext` for a stem without dots is `.ext`. */
  lemma {:induction false} SplitExtOf(dir: string, stem: string, ext: string)
    requires |stem| > 0 && '/' !in stem && '.' !in stem
    requires '/' !in ext && '.' !in ext
    ensures SplitExt(dir + "/" + stem + "." + ext) == (dir + "/" + stem, "." + ext)
  {
    var p := dir + "/" + stem + "." + ext;
    assert p == dir + ['/'] + (stem + "." + ext);
    assert '/' !in stem + "." + ext;
    RFindAt(dir, '/', stem + "." + ext);
    assert p == (dir + "/" + stem) + ['.'] + ext;
    RFindAt(dir + "/" + stem, '.', ext);
    var sep, dot := |dir|, |dir| + 1 + |stem|;
    assert p[sep + 1] == stem[0] && stem[0] != '.';
    assert p[..dot] == dir + "/" + stem;
    assert p[dot..] == "." + ext;
  }
}
