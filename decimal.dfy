/**
 * Decimal text of integers as Python produces and reads it: `str(n)`, `int(s)` and the
 * zero-padded format `f"{n:03d}"`.
 */
module Decimal {
  import opened Wrappers
  import opened Text

  function DigitChar(d: nat): (c: char)
    requires d < 10
    ensures IsDigit(c)
  {
    ('0' as int + d) as char
  }

  function DigitValue(c: char): (d: nat)
    requires IsDigit(c)
    ensures d < 10 && DigitChar(d) == c
  {
    c as int - '0' as int
  }

  function Pow10(k: nat): (p: nat)
    ensures p >= 1
  {
    if k == 0 then 1 else 10 * Pow10(k - 1)
  }

  /** `str(n)` for a non-negative integer: no sign, no leading zero. */
  function Str(n: nat): (s: string)
    ensures IsDigitString(s)
    ensures |s| > 1 ==> s[0] != '0'
  {
    if n < 10 then [DigitChar(n)] else Str(n / 10) + [DigitChar(n % 10)]
  }

  /** `int(s)` for a string of ASCII digits (leading zeros allowed). */
  function Value(s: string): nat
    requires forall i :: 0 <= i < |s| ==> IsDigit(s[i])
  {
    if |s| == 0 then 0 else 10 * Value(s[..|s| - 1]) + DigitValue(s[|s| - 1])
  }

  /** `int(str(n)) == n`. */
  lemma {:induction false} ValueOfStr(n: nat)
    ensures Value(Str(n)) == n
  {
    if n >= 10 {
      ValueOfStr(n / 10);
      var s := Str(n);
      assert s[..|s| - 1] == Str(n / 10);
    }
  }

  /** A number at least 10^k needs more than k digits. */
  lemma {:induction false} StrLengthGrows(n: nat, k: nat)
    requires n >= Pow10(k)
    ensures |Str(n)| > k
  {
    if k > 0 {
      StrLengthGrows(n / 10, k - 1);
    }
  }

  function Zeros(k: nat): (z: string)
    ensures |z| == k && forall i :: 0 <= i < k ==> z[i] == '0'
  {
    seq(k, _ => '0')
  }

  /** `f"{n:03d}"`: `str(n)` left-padded with zeros to at least three characters. */
  function Pad3(n: nat): (s: string)
    ensures |s| >= 3
    ensures IsDigitString(s)
  {
    var digits := Str(n);
    if |digits| >= 3 then digits else Zeros(3 - |digits|) + digits
  }

  lemma {:induction false} ValueLeadingZeros(k: nat, s: string)
    requires forall i :: 0 <= i < |s| ==> IsDigit(s[i])
    ensures Value(Zeros(k) + s) == Value(s)
    decreases |s|
  {
    var t := Zeros(k) + s;
    if |s| == 0 {
      ValueOfZeros(k);
      assert t == Zeros(k);
    } else {
      assert t[..|t| - 1] == Zeros(k) + s[..|s| - 1];
      ValueLeadingZeros(k, s[..|s| - 1]);
    }
  }

  lemma {:induction false} ValueOfZeros(k: nat)
    ensures Value(Zeros(k)) == 0
  {
    if k > 0 {
      assert Zeros(k)[..k - 1] == Zeros(k - 1);
      ValueOfZeros(k - 1);
    }
  }

  /** The padded name still reads back as the page number, so distinct pages get distinct names. */
  lemma Pad3Value(n: nat)
    ensures Value(Pad3(n)) == n
  {
    ValueOfStr(n);
    var digits := Str(n);
    if |digits| < 3 {
      ValueLeadingZeros(3 - |digits|, digits);
    }
  }

  lemma Pad3Injective(p: nat, q: nat)
    requires Pad3(p) == Pad3(q)
    ensures p == q
  {
    Pad3Value(p);
    Pad3Value(q);
  }

  /** Below 1000 the padded form is exactly three digits: hundreds, tens, units. */
  lemma Pad3BelowThousand(n: nat)
    requires n < 1000
    ensures Pad3(n) == [DigitChar(n / 100), DigitChar(n / 10 % 10), DigitChar(n % 10)]
  {
    if n >= 100 {
      assert Str(n / 10) == Str(n / 100) + [DigitChar(n / 10 % 10)];
    } else if n >= 10 {
      assert Str(n) == [DigitChar(n / 10), DigitChar(n % 10)];
    }
  }

  /**
   * For pages below 1000, comparing `f"{p:03d}" + x` with `f"{q:03d}" + y` as strings
   * orders them by page number, whatever follows the digits.
   */
  lemma Pad3OrderIsNumeric(p: nat, q: nat, x: string, y: string)
    requires p < 1000 && q < 1000 && p != q
    ensures LexLess(Pad3(p) + x, Pad3(q) + y) <==> p < q
  {
    Pad3BelowThousand(p);
    Pad3BelowThousand(q);
    DigitsOrder(p, q);
    LexLessThreeDigits(p / 100, p / 10 % 10, p % 10, q / 100, q / 10 % 10, q % 10, x, y);
  }

  /** Below 1000, numeric order is the order of (hundreds, tens, units), compared left to right. */
  lemma DigitsOrder(p: nat, q: nat)
    requires p < 1000 && q < 1000 && p != q
    ensures (p / 100, p / 10 % 10, p % 10) != (q / 100, q / 10 % 10, q % 10)
    ensures p < q <==> (p / 100 < q / 100
      || (p / 100 == q / 100 && (p / 10 % 10 < q / 10 % 10 || (p / 10 % 10 == q / 10 % 10 && p % 10 < q % 10))))
  {
    assert p == 100 * (p / 100) + 10 * (p / 10 % 10) + p % 10;
    assert q == 100 * (q / 100) + 10 * (q / 10 % 10) + q % 10;
  }

  lemma DigitCharOrder(d: nat, e: nat)
    requires d < 10 && e < 10
    ensures DigitChar(d) < DigitChar(e) <==> d < e
    ensures DigitChar(d) == DigitChar(e) <==> d == e
  {
  }

  /** Three digits followed by anything compare as the digits do, left to right. */
  lemma LexLessThreeDigits(a2: nat, a1: nat, a0: nat, b2: nat, b1: nat, b0: nat, x: string, y: string)
    requires a2 < 10 && a1 < 10 && a0 < 10 && b2 < 10 && b1 < 10 && b0 < 10
    requires (a2, a1, a0) != (b2, b1, b0)
    ensures LexLess([DigitChar(a2), DigitChar(a1), DigitChar(a0)] + x, [DigitChar(b2), DigitChar(b1), DigitChar(b0)] + y)
      <==> a2 < b2 || (a2 == b2 && (a1 < b1 || (a1 == b1 && a0 < b0)))
  {
    var a, b := [DigitChar(a2), DigitChar(a1), DigitChar(a0)] + x, [DigitChar(b2), DigitChar(b1), DigitChar(b0)] + y;
    DigitCharOrder(a2, b2);
    DigitCharOrder(a1, b1);
    DigitCharOrder(a0, b0);
    assert a[0] == DigitChar(a2) && b[0] == DigitChar(b2);
    if a2 == b2 {
      var a', b' := a[1..], b[1..];
      assert a' == [DigitChar(a1), DigitChar(a0)] + x && b' == [DigitChar(b1), DigitChar(b0)] + y;
      assert LexLess(a, b) == LexLess(a', b');
      if a1 == b1 {
        assert a'[1..] == [DigitChar(a0)] + x && b'[1..] == [DigitChar(b0)] + y;
        assert LexLess(a', b') == LexLess(a'[1..], b'[1..]);
      }
    }
  }

  /**
   * `int(s)` for a string that Python's `int` accepts in this model: optional surrounding
   * whitespace, an optional sign, then ASCII digits. Anything else is a `ValueError` (`None`).
   */
  function ParseInt(s: string): (r: Option<int>)
    ensures r.Some? <==>
      var t := Strip(s);
      IsDigitString(t) || (|t| > 1 && (t[0] == '+' || t[0] == '-') && IsDigitString(t[1..]))
  {
    var t := Strip(s);
    if IsDigitString(t) then Some(Value(t))
    else if |t| > 1 && t[0] == '+' && IsDigitString(t[1..]) then Some(Value(t[1..]))
    else if |t| > 1 && t[0] == '-' && IsDigitString(t[1..]) then Some(-(Value(t[1..]) as int))
    else None
  }

  lemma ParseIntOfStr(n: nat)
    ensures ParseInt(Str(n)) == Some(n)
  {
    ValueOfStr(n);
    var s := Str(n);
    StripTrimmed(s);
  }
}
