/** Decimal rendering of integers the way Python's str() and the format spec "0<w>" (as in
    f"{n:02}") write them, with the value and order facts the timestamp proofs rest on. */
module Digits {
  import opened Lex

  /** 10 to the power k. */
  function Pow10(k: nat): (r: nat)
    ensures r >= 1
  {
    if k == 0 then 1 else 10 * Pow10(k - 1)
  }

  function Max(a: nat, b: nat): nat
  {
    if a < b then b else a
  }

  predicate IsDigit(c: char)
  {
    '0' <= c <= '9'
  }

  predicate AllDigits(s: string)
  {
    forall i :: 0 <= i < |s| ==> IsDigit(s[i])
  }

  function DigitValue(c: char): nat
    requires IsDigit(c)
  {
    c as int - '0' as int
  }

  /** The character of decimal digit d; its value is d again, and characters order as digits do. */
  function DigitChar(d: nat): (c: char)
    requires d < 10
    ensures IsDigit(c) && DigitValue(c) == d
  {
    ('0' as int + d) as char
  }

  /** The last w decimal digits of n, most significant first, padded with zeros to exactly w
      characters. */
  function Fixed(n: nat, w: nat): (s: string)
    ensures |s| == w && AllDigits(s)
  {
    if w == 0 then [] else Fixed(n / 10, w - 1) + [DigitChar(n % 10)]
  }

  /** The number of decimal digits of n; 0 has one. */
  function Width(n: nat): (w: nat)
    ensures 1 <= w && n < Pow10(w)
  {
    if n < 10 then 1 else 1 + Width(n / 10)
  }

  /** Python's str(n) for a natural number. */
  function Str(n: nat): string
  {
    Fixed(n, Width(n))
  }

  /** Python's format(n, "0<w>") for a natural number: str(n), padded on the left with zeros
      to at least w characters, never cut. */
  function PadNat(n: nat, w: nat): string
  {
    Fixed(n, Max(w, Width(n)))
  }

  /** Python's format(n, "0<w>") for any integer: the minus sign counts toward the width and
      the zeros go between the sign and the digits (format(-5, "03") is "-05"). */
  function Pad(n: int, w: nat): string
  {
    if n >= 0 then PadNat(n, w) else "-" + PadNat(-n, if w == 0 then 0 else w - 1)
  }

  /** Format(n, "0<w>") writes only digits and a minus sign. */
  lemma PadChars(n: int, w: nat)
    ensures forall ch :: ch in Pad(n, w) ==> IsDigit(ch) || ch == '-'
  {
    forall ch | ch in Pad(n, w)
      ensures IsDigit(ch) || ch == '-'
    {
      var s := Pad(n, w);
      var i :| 0 <= i < |s| && s[i] == ch;
      if n < 0 && i > 0 {
        assert ch == PadNat(-n, if w == 0 then 0 else w - 1)[i - 1];
      }
    }
  }

  /** w zeros. */
  function Zeros(w: nat): (s: string)
    ensures |s| == w && forall i :: 0 <= i < w ==> s[i] == '0'
  {
    if w == 0 then [] else Zeros(w - 1) + ['0']
  }

  /** The number a string of decimal digits denotes. */
  function Value(s: string): (v: nat)
    requires AllDigits(s)
    ensures v < Pow10(|s|)
  {
    if s == [] then 0 else 10 * Value(s[..|s| - 1]) + DigitValue(s[|s| - 1])
  }

  /** Fixed is the inverse of Value on numbers that fit the width. */
  lemma {:induction false} FixedValue(n: nat, w: nat)
    requires n < Pow10(w)
    ensures Value(Fixed(n, w)) == n
  {
    if w > 0 {
      FixedValue(n / 10, w - 1);
      var s := Fixed(n, w);
      assert s[..w - 1] == Fixed(n / 10, w - 1);
    }
  }

  /** Str is the inverse of Value. */
  lemma StrValue(n: nat)
    ensures Value(Str(n)) == n && |Str(n)| >= 1
  {
    FixedValue(n, Width(n));
  }

  /** A zero-padded rendering is the plain one with zeros in front. */
  lemma {:induction false} FixedPadded(n: nat, m: nat, k: nat)
    requires n < Pow10(m)
    ensures Fixed(n, m + k) == Zeros(k) + Fixed(n, m)
    decreases m
  {
    if m == 0 {
      ZeroFixed(k);
    } else {
      FixedPadded(n / 10, m - 1, k);
      assert m + k - 1 == (m - 1) + k;
    }
  }

  lemma {:induction false} ZeroFixed(k: nat)
    ensures Fixed(0, k) == Zeros(k)
  {
    if k > 0 {
      ZeroFixed(k - 1);
    }
  }

  /** format(n, "0<w>") is str(n) with exactly the missing zeros in front. */
  lemma PadNatIsZeroPadded(n: nat, w: nat)
    ensures |PadNat(n, w)| == Max(w, |Str(n)|)
    ensures PadNat(n, w) == Zeros(Max(w, |Str(n)|) - |Str(n)|) + Str(n)
  {
    var W := Width(n);
    FixedPadded(n, W, Max(w, W) - W);
    assert W + (Max(w, W) - W) == Max(w, W);
  }

  /** Width counts digits: n fits in w digits exactly when its width is at most w. */
  lemma {:induction false} WidthFits(n: nat, w: nat)
    requires w >= 1
    ensures Width(n) <= w <==> n < Pow10(w)
    decreases n
  {
    if n >= 10 {
      if w == 1 {
        assert Pow10(1) == 10;
      } else {
        WidthFits(n / 10, w - 1);
      }
    }
  }

  /** A larger number never has fewer digits. */
  lemma {:induction false} WidthMonotone(a: nat, b: nat)
    requires a <= b
    ensures Width(a) <= Width(b)
    decreases b
  {
    if a >= 10 {
      WidthMonotone(a / 10, b / 10);
    }
  }

  /** On numbers that fit the width, the string order of the renderings is the numeric order. */
  lemma {:induction false} FixedOrder(a: nat, b: nat, w: nat)
    requires a < Pow10(w) && b < Pow10(w)
    ensures LexLe(Fixed(a, w), Fixed(b, w)) <==> a <= b
    ensures Fixed(a, w) == Fixed(b, w) <==> a == b
  {
    if w > 0 {
      var x1, x2 := Fixed(a / 10, w - 1), Fixed(b / 10, w - 1);
      var d1, d2 := DigitChar(a % 10), DigitChar(b % 10);
      DropDigitFits(a, w);
      DropDigitFits(b, w);
      FixedOrder(a / 10, b / 10, w - 1);
      if x1 + [d1] == x2 + [d2] {
        assert (x1 + [d1])[..w - 1] == x1 && (x2 + [d2])[..w - 1] == x2;
        assert (x1 + [d1])[w - 1] == d1 && (x2 + [d2])[w - 1] == d2;
      }
      LexLeConcat(x1, [d1], x2, [d2]);
      assert LexLe([d1], [d2]) <==> d1 <= d2;
      LastDigitOrder(a, b);
    }
  }

  lemma DropDigitFits(a: nat, w: nat)
    requires 0 < w && a < Pow10(w)
    ensures a / 10 < Pow10(w - 1)
  {
  }

  /** Numbers compare as their leading digits, then their last digits. */
  lemma LastDigitOrder(a: nat, b: nat)
    ensures a <= b <==> a / 10 < b / 10 || (a / 10 == b / 10 && a % 10 <= b % 10)
    ensures a == b <==> a / 10 == b / 10 && a % 10 == b % 10
  {
  }
}
