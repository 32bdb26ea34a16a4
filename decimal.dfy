/** Decimal rendering of natural numbers: `str(n)` / `%d` and the zero-padded
    `%0wd` that the timestamp fields use. */
module DecimalText {
  import opened Ordering

  predicate IsDigit(c: char)
  {
    '0' <= c <= '9'
  }

  predicate AllDigits(s: string)
  {
    forall i :: 0 <= i < |s| ==> IsDigit(s[i])
  }

  function DigitChar(d: nat): (c: char)
    requires d < 10
    ensures IsDigit(c)
  {
    ('0' as int + d) as char
  }

  function DigitValue(c: char): (d: nat)
    requires IsDigit(c)
    ensures d < 10 && DigitChar(d) == c
  {
    c as int - '0' as int
  }

  function Pow10(w: nat): (p: nat)
    ensures p >= 1
  {
    if w == 0 then 1 else 10 * Pow10(w - 1)
  }

  /** The last `w` decimal digits of `n`, most significant first. */
  function Digits(n: nat, w: nat): (s: string)
    ensures |s| == w && AllDigits(s)
  {
    if w == 0 then "" else Digits(n / 10, w - 1) + [DigitChar(n % 10)]
  }

  /** The number of digits `str(n)` has. */
  function Width(n: nat): (w: nat)
    ensures 1 <= w && n < Pow10(w)
  {
    if n < 10 then 1 else 1 + Width(n / 10)
  }

  function Max(a: nat, b: nat): nat
  {
    if a < b then b else a
  }

  /** `str(n)`: the decimal digits of `n` without leading zeros. */
  function Decimal(n: nat): string
  {
    Digits(n, Width(n))
  }

  /** `"%0*d" % (w, n)`: `n` in decimal, padded with zeros on the left to at
      least `w` characters. */
  function PadLeft(n: nat, w: nat): string
  {
    Digits(n, Max(w, Width(n)))
  }

  /** The number a string of decimal digits denotes (the partner of
      `Digits`, `Decimal` and `PadLeft`). */
  function Value(s: string): nat
    requires AllDigits(s)
  {
    if s == [] then 0 else 10 * Value(s[..|s| - 1]) + DigitValue(s[|s| - 1])
  }

  lemma ModOfDecomposition(n: nat, m: nat, q: nat, r: nat)
    requires m > 0 && n == q * m + r && r < m
    ensures n % m == r && n / m == q
  {
    var q', r' := n / m, n % m;
    assert q' * m + r' == q * m + r;
    if q > q' {
      AtLeastOneMultiple(q - q', m);
    } else if q < q' {
      AtLeastOneMultiple(q' - q, m);
    }
  }

  lemma AtLeastOneMultiple(k: nat, m: nat)
    requires k >= 1
    ensures k * m >= m
  {
    assert k * m == (k - 1) * m + m;
  }

  lemma {:induction false} DigitsValue(n: nat, w: nat)
    ensures Value(Digits(n, w)) == n % Pow10(w)
  {
    if w > 0 {
      var s := Digits(n, w);
      assert s[..|s| - 1] == Digits(n / 10, w - 1);
      DigitsValue(n / 10, w - 1);
      ModTenTimes(n, Pow10(w - 1));
    }
  }

  lemma ModTenTimes(n: nat, p: nat)
    requires p >= 1
    ensures n % (10 * p) == 10 * ((n / 10) % p) + n % 10
  {
    var q, t := (n / 10) / p, (n / 10) % p;
    assert n / 10 == q * p + t;
    assert n == 10 * (n / 10) + n % 10;
    assert n == q * (10 * p) + (10 * t + n % 10);
    ModOfDecomposition(n, 10 * p, q, 10 * t + n % 10);
  }

  /** Reading back what `str(n)` printed gives `n`. */
  lemma DecimalRoundTrip(n: nat)
    ensures AllDigits(Decimal(n)) && |Decimal(n)| == Width(n)
    ensures Value(Decimal(n)) == n
  {
    DigitsValue(n, Width(n));
    ModOfDecomposition(n, Pow10(Width(n)), 0, n);
  }

  lemma {:induction false} WidthAtMost(n: nat, w: nat)
    requires 1 <= w && n < Pow10(w)
    ensures Width(n) <= w
  {
    if n >= 10 && w > 1 {
      assert n / 10 < Pow10(w - 1);
      WidthAtMost(n / 10, w - 1);
    }
  }

  /** `%0wd` renders every number below 10^w in exactly `w` characters, and
      the number read back from them is `n`. */
  lemma PadLeftFixedWidth(n: nat, w: nat)
    requires 1 <= w && n < Pow10(w)
    ensures PadLeft(n, w) == Digits(n, w)
    ensures |PadLeft(n, w)| == w && Value(PadLeft(n, w)) == n
  {
    WidthAtMost(n, w);
    DigitsValue(n, w);
    ModOfDecomposition(n, Pow10(w), 0, n);
  }

  lemma DivModOrder(a: nat, b: nat)
    ensures a < b <==> a / 10 < b / 10 || (a / 10 == b / 10 && a % 10 < b % 10)
  {
    assert a == 10 * (a / 10) + a % 10;
    assert b == 10 * (b / 10) + b % 10;
  }

  /** Fixed-width digit strings compare, as strings, exactly as the numbers
      they denote; and they are equal only for equal numbers. */
  lemma {:induction false} DigitsOrder(a: nat, b: nat, w: nat)
    requires a < Pow10(w) && b < Pow10(w)
    ensures Digits(a, w) == Digits(b, w) <==> a == b
    ensures LexLess(Digits(a, w), Digits(b, w)) <==> a < b
  {
    if w == 0 {
      assert a == 0 && b == 0;
      LexLessIrreflexive("");
    } else {
      var p := Pow10(w - 1);
      assert a / 10 < p && b / 10 < p;
      DigitsOrder(a / 10, b / 10, w - 1);
      var ha, hb := Digits(a / 10, w - 1), Digits(b / 10, w - 1);
      var ca, cb := DigitChar(a % 10), DigitChar(b % 10);
      LexLessConcat(ha, [ca], hb, [cb]);
      assert LexLess([ca], [cb]) <==> ca < cb;
      assert [ca] == [cb] <==> a % 10 == b % 10;
      DivModOrder(a, b);
      assert a == 10 * (a / 10) + a % 10;
      assert b == 10 * (b / 10) + b % 10;
    }
  }
}
