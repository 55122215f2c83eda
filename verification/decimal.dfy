/** ASCII decimal digits: reading a digit string as Python's `int()` does,
    and writing a non-negative integer as `str()` and the `02d` format do. */
module Decimal {

  predicate IsDigit(c: char) {
    '0' <= c <= '9'
  }

  predicate AllDigits(s: string) {
    forall i :: 0 <= i < |s| ==> IsDigit(s[i])
  }

  function Pow10(k: nat): (p: nat)
    ensures p >= 1
  {
    if k == 0 then 1 else 10 * Pow10(k - 1)
  }

  function DigitValue(c: char): (d: nat)
    requires IsDigit(c)
    ensures d < 10
  {
    (c as int) - ('0' as int)
  }

  function DigitChar(d: nat): (c: char)
    requires d < 10
    ensures IsDigit(c) && DigitValue(c) == d
  {
    ('0' as int + d) as char
  }

  /** The number a digit string denotes; leading zeros are allowed, as in `int("07")`. */
  function ValueOf(s: string): (v: nat)
    requires AllDigits(s)
    ensures v < Pow10(|s|)
    decreases |s|
  {
    if s == [] then 0
    else
      var v' := ValueOf(s[..|s| - 1]);
      assert v' * 10 <= (Pow10(|s| - 1) - 1) * 10;
      v' * 10 + DigitValue(s[|s| - 1])
  }

  /** The shortest decimal spelling of n, as `str(n)`. */
  function Digits(n: nat): (s: string)
    ensures AllDigits(s)
    ensures 1 <= |s|
    ensures n < 10 <==> |s| == 1
    ensures n < 100 ==> |s| <= 2
    ensures n >= 100 ==> |s| >= 3
  {
    if n < 10 then [DigitChar(n)] else Digits(n / 10) + [DigitChar(n % 10)]
  }

  /** Reading the spelling of n back gives n. */
  lemma {:induction false} DigitsValue(n: nat)
    ensures ValueOf(Digits(n)) == n
  {
    if n >= 10 {
      var s := Digits(n);
      assert s[..|s| - 1] == Digits(n / 10);
      DigitsValue(n / 10);
    }
  }

  /** `f"{n:02d}"`: the decimal spelling of n, zero-padded to at least two characters. */
  function ZeroPadded2(n: nat): (s: string)
    ensures AllDigits(s)
    ensures n < 100 ==> |s| == 2
    ensures n >= 100 ==> s == Digits(n) && |s| >= 3
  {
    if n < 100 then [DigitChar(n / 10), DigitChar(n % 10)] else Digits(n)
  }

  /** The `02d` format is `str(n)` with a '0' in front when that is a single character. */
  lemma ZeroPadded2Pads(n: nat)
    ensures ZeroPadded2(n) == if |Digits(n)| < 2 then "0" + Digits(n) else Digits(n)
  {
    if 10 <= n < 100 {
      assert Digits(n / 10) == [DigitChar(n / 10)];
    }
  }

  /** Reading the padded spelling of n back gives n. */
  lemma ZeroPadded2Value(n: nat)
    ensures ValueOf(ZeroPadded2(n)) == n
  {
    if n < 100 {
      var s := ZeroPadded2(n);
      assert s[..1] == [DigitChar(n / 10)];
      assert ValueOf(s[..1]) == n / 10;
    } else {
      DigitsValue(n);
    }
  }

  /** Digit strings of one length are equal exactly when their values are. */
  lemma {:induction false} ValueOfInjective(a: string, b: string)
    requires AllDigits(a) && AllDigits(b) && |a| == |b|
    requires ValueOf(a) == ValueOf(b)
    ensures a == b
    decreases |a|
  {
    if a != [] {
      var n := |a| - 1;
      var va, vb := ValueOf(a[..n]), ValueOf(b[..n]);
      var da, db := DigitValue(a[n]), DigitValue(b[n]);
      assert va * 10 + da == vb * 10 + db;
      assert da == db && va == vb;
      ValueOfInjective(a[..n], b[..n]);
      assert (a[n] as int) == (b[n] as int);
      assert a == a[..n] + [a[n]] && b == b[..n] + [b[n]];
    }
  }

  /** For values below 100, the `02d` spelling is the two-digit string with that value. */
  lemma ZeroPadded2Is(n: nat, s: string)
    requires AllDigits(s) && |s| == 2 && ValueOf(s) == n
    ensures ZeroPadded2(n) == s
  {
    ZeroPadded2Value(n);
    ValueOfInjective(ZeroPadded2(n), s);
  }
}
