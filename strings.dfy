/**
 * Python `str` operations used by the three scripts, on `seq<char>`:
 * `endswith`, `lower`, the `<` order `sorted` uses, `str(n)` and the
 * `{n:0Wd}` format.
 */
module Strings {

  /** `s.endswith(suffix)`. */
  predicate EndsWith(s: string, suffix: string) {
    |suffix| <= |s| && s[|s| - |suffix|..] == suffix
  }

  lemma EndsWithTransitive(s: string, t: string, suffix: string)
    requires EndsWith(s, t) && EndsWith(t, suffix)
    ensures EndsWith(s, suffix)
  {
    assert s[|s| - |suffix|..] == t[|t| - |suffix|..];
  }

  /** `str.lower` on one character; only ASCII letters are folded. */
  function LowerChar(c: char): char {
    if 'A' <= c <= 'Z' then (c as int + 32) as char else c
  }

  /** `s.lower()`, folding ASCII letters only. */
  function Lower(s: string): string {
    seq(|s|, i requires 0 <= i < |s| => LowerChar(s[i]))
  }

  // ---------------------------------------------------------------------
  // Python's `<` on str: lexicographic by code point, and a proper prefix
  // is smaller than the longer string.
  // ---------------------------------------------------------------------

  predicate Less(a: string, b: string)
    decreases |a|
  {
    if |a| == 0 then |b| > 0
    else |b| > 0 && (a[0] < b[0] || (a[0] == b[0] && Less(a[1..], b[1..])))
  }

  /** `a <= b` on str. */
  predicate LessEq(a: string, b: string) {
    a == b || Less(a, b)
  }

  lemma {:induction false} LessIrreflexive(a: string)
    ensures !Less(a, a)
    decreases |a|
  {
    if |a| > 0 {
      LessIrreflexive(a[1..]);
    }
  }

  lemma {:induction false} LessTransitive(a: string, b: string, c: string)
    requires Less(a, b) && Less(b, c)
    ensures Less(a, c)
    decreases |a|
  {
    if |a| > 0 && a[0] == b[0] && b[0] == c[0] {
      LessTransitive(a[1..], b[1..], c[1..]);
    }
  }

  lemma {:induction false} LessTotal(a: string, b: string)
    ensures a == b || Less(a, b) || Less(b, a)
    decreases |a|
  {
    if |a| > 0 && |b| > 0 && a[0] == b[0] {
      LessTotal(a[1..], b[1..]);
      if a[1..] == b[1..] {
        assert a == [a[0]] + a[1..] && b == [b[0]] + b[1..];
      }
    }
  }

  lemma LessAsymmetric(a: string, b: string)
    requires Less(a, b)
    ensures !Less(b, a)
  {
    if Less(b, a) {
      LessTransitive(a, b, a);
      LessIrreflexive(a);
    }
  }

  /** A common prefix does not decide the comparison. */
  lemma {:induction false} LessCommonPrefix(x: string, a: string, b: string)
    ensures Less(x + a, x + b) == Less(a, b)
    decreases |x|
  {
    if |x| > 0 {
      assert (x + a)[1..] == x[1..] + a;
      assert (x + b)[1..] == x[1..] + b;
      LessCommonPrefix(x[1..], a, b);
    } else {
      assert x + a == a && x + b == b;
    }
  }

  /** Two different prefixes of the same length decide the comparison. */
  lemma {:induction false} LessEqualLengthPrefix(x: string, y: string, a: string, b: string)
    requires |x| == |y| && x != y
    ensures Less(x + a, y + b) == Less(x, y)
    decreases |x|
  {
    assert (x + a)[0] == x[0] && (y + b)[0] == y[0];
    assert x == [x[0]] + x[1..] && y == [y[0]] + y[1..];
    if x[0] == y[0] {
      assert (x + a)[1..] == x[1..] + a;
      assert (y + b)[1..] == y[1..] + b;
      LessEqualLengthPrefix(x[1..], y[1..], a, b);
    }
  }

  // ---------------------------------------------------------------------
  // Decimal numerals: `str(n)` and `f"{n:0{width}d}"` for n >= 0
  // ---------------------------------------------------------------------

  predicate IsDigit(c: char) {
    '0' <= c <= '9'
  }

  predicate AllDigits(s: string) {
    forall i :: 0 <= i < |s| ==> IsDigit(s[i])
  }

  function DigitChar(d: nat): (c: char)
    requires d < 10
    ensures IsDigit(c) && c as int - '0' as int == d
  {
    ('0' as int + d) as char
  }

  /** `str(n)`: the shortest decimal numeral of n. */
  function Decimal(n: nat): string
    decreases n
  {
    if n < 10 then [DigitChar(n)] else Decimal(n / 10) + [DigitChar(n % 10)]
  }

  /** `str(n)` is a non-empty run of digits, a single one exactly for n < 10. */
  lemma {:induction false} DecimalShape(n: nat)
    ensures |Decimal(n)| >= 1 && AllDigits(Decimal(n))
    ensures |Decimal(n)| == 1 <==> n < 10
    decreases n
  {
    if n >= 10 {
      var d, init := Decimal(n), Decimal(n / 10);
      DecimalShape(n / 10);
      assert d == init + [DigitChar(n % 10)];
      forall i | 0 <= i < |d|
        ensures IsDigit(d[i])
      {
        if i < |init| {
          assert d[i] == init[i];
        }
      }
    }
  }

  function Zeros(k: nat): (z: string)
    ensures |z| == k && forall i :: 0 <= i < k ==> z[i] == '0'
  {
    seq(k, i => '0')
  }

  /** `f"{n:0{width}d}"`: `str(n)` left-padded with zeros to at least `width` characters. */
  function ZeroPadded(n: nat, width: nat): (r: string)
  {
    var d := Decimal(n);
    if |d| < width then Zeros(width - |d|) + d else d
  }

  /** The padded numeral is all digits, at least `width` long, and ends in `str(n)`. */
  lemma ZeroPaddedShape(n: nat, width: nat)
    ensures AllDigits(ZeroPadded(n, width))
    ensures |ZeroPadded(n, width)| == if |Decimal(n)| < width then width else |Decimal(n)|
    ensures EndsWith(ZeroPadded(n, width), Decimal(n))
  {
    var d, r := Decimal(n), ZeroPadded(n, width);
    DecimalShape(n);
    assert r[|r| - |d|..] == d;
  }

  /** The number a numeral denotes, read most significant digit first. */
  function DigitsValue(s: string): nat
    requires AllDigits(s)
  {
    if s == [] then 0 else DigitsValue(s[..|s| - 1]) * 10 + (s[|s| - 1] as int - '0' as int)
  }

  lemma {:induction false} DecimalValue(n: nat)
    ensures AllDigits(Decimal(n)) && DigitsValue(Decimal(n)) == n
    decreases n
  {
    DecimalShape(n);
    if n >= 10 {
      var d := Decimal(n);
      assert d[..|d| - 1] == Decimal(n / 10);
      DecimalValue(n / 10);
    }
  }

  lemma {:induction false} ZerosValue(k: nat)
    ensures DigitsValue(Zeros(k)) == 0
  {
    if k > 0 {
      assert Zeros(k)[..k - 1] == Zeros(k - 1);
      ZerosValue(k - 1);
    }
  }

  lemma {:induction false} LeadingZerosValue(k: nat, s: string)
    requires AllDigits(s)
    ensures AllDigits(Zeros(k) + s)
    ensures DigitsValue(Zeros(k) + s) == DigitsValue(s)
    decreases |s|
  {
    var t := Zeros(k) + s;
    if s == [] {
      assert t == Zeros(k);
      ZerosValue(k);
    } else {
      assert t[..|t| - 1] == Zeros(k) + s[..|s| - 1];
      LeadingZerosValue(k, s[..|s| - 1]);
    }
  }

  /** Reading the padded numeral back gives the number: the format loses nothing. */
  lemma ZeroPaddedValue(n: nat, width: nat)
    ensures AllDigits(ZeroPadded(n, width)) && DigitsValue(ZeroPadded(n, width)) == n
  {
    var d := Decimal(n);
    ZeroPaddedShape(n, width);
    DecimalValue(n);
    if |d| < width {
      assert ZeroPadded(n, width) == Zeros(width - |d|) + d;
      LeadingZerosValue(width - |d|, d);
    } else {
      assert ZeroPadded(n, width) == d;
    }
  }

  lemma ZeroPaddedInjective(a: nat, b: nat, width: nat)
    requires ZeroPadded(a, width) == ZeroPadded(b, width)
    ensures a == b
  {
    ZeroPaddedValue(a, width);
    ZeroPaddedValue(b, width);
  }

  /** Below 1000, the 3-wide numeral is exactly the hundreds, tens and units digits. */
  lemma ZeroPadded3Digits(n: nat)
    requires n < 1000
    ensures ZeroPadded(n, 3) == [DigitChar(n / 100), DigitChar(n / 10 % 10), DigitChar(n % 10)]
  {
    if n < 10 {
      assert Decimal(n) == [DigitChar(n)];
      assert Zeros(2) == ['0', '0'];
    } else if n < 100 {
      assert Decimal(n / 10) == [DigitChar(n / 10)];
      assert Decimal(n) == [DigitChar(n / 10), DigitChar(n % 10)];
      assert Zeros(1) == ['0'];
    } else {
      assert Decimal(n / 100) == [DigitChar(n / 100)];
      assert Decimal(n / 10) == [DigitChar(n / 100), DigitChar(n / 10 % 10)];
      assert Decimal(n) == [DigitChar(n / 100), DigitChar(n / 10 % 10), DigitChar(n % 10)];
    }
  }

  lemma Less3(a: string, b: string)
    requires |a| == 3 && |b| == 3
    ensures Less(a, b) <==>
      a[0] < b[0] || (a[0] == b[0] && (a[1] < b[1] || (a[1] == b[1] && a[2] < b[2])))
  {
    var a1, b1 := a[1..], b[1..];
    var a2, b2 := a1[1..], b1[1..];
    assert a1[0] == a[1] && b1[0] == b[1] && a2[0] == a[2] && b2[0] == b[2];
    assert |a2[1..]| == 0 && |b2[1..]| == 0;
    assert !Less(a2[1..], b2[1..]);
    assert Less(a2, b2) <==> a[2] < b[2];
    assert Less(a1, b1) <==> a[1] < b[1] || (a[1] == b[1] && a[2] < b[2]);
  }

  lemma Lex3(x0: int, x1: int, x2: int, y0: int, y1: int, y2: int)
    requires 0 <= x1 < 10 && 0 <= x2 < 10 && 0 <= y1 < 10 && 0 <= y2 < 10
    ensures 100 * x0 + 10 * x1 + x2 < 100 * y0 + 10 * y1 + y2 <==>
      x0 < y0 || (x0 == y0 && (x1 < y1 || (x1 == y1 && x2 < y2)))
  {
  }

  lemma Decompose3(n: nat)
    ensures n == 100 * (n / 100) + 10 * (n / 10 % 10) + n % 10
    ensures n / 10 % 10 < 10 && n % 10 < 10
  {
    var q, r := n / 10, n % 10;
    var t, s := q / 10, q % 10;
    assert n == 10 * q + r;
    assert q == 10 * t + s;
    assert n == 100 * t + (10 * s + r);
    assert n / 100 == t;
  }

  lemma LessDigitTriples(x0: nat, x1: nat, x2: nat, y0: nat, y1: nat, y2: nat)
    requires x0 < 10 && x1 < 10 && x2 < 10 && y0 < 10 && y1 < 10 && y2 < 10
    ensures Less([DigitChar(x0), DigitChar(x1), DigitChar(x2)], [DigitChar(y0), DigitChar(y1), DigitChar(y2)]) <==>
      x0 < y0 || (x0 == y0 && (x1 < y1 || (x1 == y1 && x2 < y2)))
  {
    Less3([DigitChar(x0), DigitChar(x1), DigitChar(x2)], [DigitChar(y0), DigitChar(y1), DigitChar(y2)]);
  }

  /** Below 1000 the 3-wide numerals sort as the numbers do. */
  lemma ZeroPadded3Order(a: nat, b: nat)
    requires a < 1000 && b < 1000
    ensures Less(ZeroPadded(a, 3), ZeroPadded(b, 3)) <==> a < b
  {
    ZeroPadded3Digits(a);
    ZeroPadded3Digits(b);
    Decompose3(a);
    Decompose3(b);
    LessDigitTriples(a / 100, a / 10 % 10, a % 10, b / 100, b / 10 % 10, b % 10);
    Lex3(a / 100, a / 10 % 10, a % 10, b / 100, b / 10 % 10, b % 10);
  }
}
