/** Decimal digit strings: the `\d` character class, Python's `str(n)` for
    a natural `n`, `str.zfill(width)`, and the numeric value `strptime`
    reads from a run of digits. */
module Decimal {
  import opened Order

  /** `\d`, restricted to the ASCII digits. */
  predicate IsDigit(c: char)
  {
    '0' <= c <= '9'
  }

  predicate AllDigits(s: string)
  {
    forall i :: 0 <= i < |s| ==> IsDigit(s[i])
  }

  function DigitValue(c: char): (d: nat)
    requires IsDigit(c)
    ensures d < 10
  {
    c as int - '0' as int
  }

  function DigitChar(d: nat): (c: char)
    requires d < 10
    ensures IsDigit(c) && DigitValue(c) == d
  {
    ('0' as int + d) as char
  }

  function Pow10(n: nat): (p: nat)
    ensures p >= 1
  {
    if n == 0 then 1 else 10 * Pow10(n - 1)
  }

  /** The number a digit string denotes, most significant digit first;
      leading zeros are allowed. */
  function Value(s: string): nat
    requires AllDigits(s)
  {
    if s == [] then 0 else 10 * Value(s[..|s| - 1]) + DigitValue(s[|s| - 1])
  }

  /** Python's `str(n)` for a natural number: no sign, no leading zero. */
  function ToDecimal(n: nat): (s: string)
    ensures AllDigits(s) && 1 <= |s|
    ensures |s| > 1 ==> s[0] != '0'
  {
    if n < 10 then [DigitChar(n)] else ToDecimal(n / 10) + [DigitChar(n % 10)]
  }

  function Zeros(k: nat): string
  {
    seq(k, _ => '0')
  }

  /** Python's `s.zfill(width)` for a string without a sign: pad on the
      left with '0' up to `width` characters; longer strings are kept. */
  function ZFill(s: string, width: nat): (r: string)
    ensures |r| == if |s| < width then width else |s|
    ensures forall i :: 0 <= i < |r| - |s| ==> r[i] == '0'
    ensures AllDigits(s) ==> AllDigits(r)
  {
    if |s| < width then Zeros(width - |s|) + s else s
  }

  /** `zfill` keeps its input as the suffix of the result. */
  lemma ZFillKeepsInput(s: string, width: nat)
    ensures var r := ZFill(s, width); r[|r| - |s|..] == s
  {
  }

  /** What `str(n).zfill(width)` can produce: at least `width` digits, and
      a leading zero only when no longer than `width`. */
  predicate Padded(p: string, width: nat)
  {
    AllDigits(p) && 1 <= width <= |p| && (|p| == width || p[0] != '0')
  }

  lemma ValueSnoc(s: string, c: char)
    requires AllDigits(s) && IsDigit(c)
    ensures AllDigits(s + [c]) && Value(s + [c]) == 10 * Value(s) + DigitValue(c)
  {
    assert (s + [c])[..|s|] == s;
  }

  /** `str(n)` read back gives `n`. */
  lemma {:induction false} ToDecimalValue(n: nat)
    ensures Value(ToDecimal(n)) == n
  {
    if n < 10 {
      assert ToDecimal(n)[..0] == [];
    } else {
      ToDecimalValue(n / 10);
      ValueSnoc(ToDecimal(n / 10), DigitChar(n % 10));
    }
  }

  lemma {:induction false} ZerosValue(k: nat)
    ensures Value(Zeros(k)) == 0
  {
    if k != 0 {
      assert Zeros(k)[..k - 1] == Zeros(k - 1);
      ZerosValue(k - 1);
    }
  }

  /** Leading zeros do not change the value. */
  lemma {:induction false} LeadingZerosValue(k: nat, s: string)
    requires AllDigits(s)
    ensures AllDigits(Zeros(k) + s) && Value(Zeros(k) + s) == Value(s)
  {
    if s == [] {
      assert Zeros(k) + s == Zeros(k);
      ZerosValue(k);
    } else {
      var init := s[..|s| - 1];
      LeadingZerosValue(k, init);
      assert Zeros(k) + s == (Zeros(k) + init) + [s[|s| - 1]];
      ValueSnoc(Zeros(k) + init, s[|s| - 1]);
      ValueSnoc(init, s[|s| - 1]);
      assert init + [s[|s| - 1]] == s;
    }
  }

  /** `zfill` keeps the value of a digit string. */
  lemma ZFillValue(s: string, width: nat)
    requires AllDigits(s)
    ensures AllDigits(ZFill(s, width)) && Value(ZFill(s, width)) == Value(s)
  {
    if |s| < width {
      LeadingZerosValue(width - |s|, s);
    }
  }

  /** A string of `n` digits denotes a number below 10^n. */
  lemma {:induction false} ValueBound(s: string)
    requires AllDigits(s)
    ensures Value(s) < Pow10(|s|)
  {
    if s != [] {
      ValueBound(s[..|s| - 1]);
    }
  }

  /** Two digit strings of the same length with the same value are equal. */
  lemma {:induction false} ValueInjective(a: string, b: string)
    requires AllDigits(a) && AllDigits(b) && |a| == |b|
    requires Value(a) == Value(b)
    ensures a == b
  {
    if a != [] {
      var n := |a| - 1;
      var da, db := DigitValue(a[n]), DigitValue(b[n]);
      assert Value(a) % 10 == da && Value(b) % 10 == db;
      assert a[n] == b[n] by {
        assert DigitChar(da) == a[n] && DigitChar(db) == b[n];
      }
      ValueInjective(a[..n], b[..n]);
      assert a == a[..n] + [a[n]] && b == b[..n] + [b[n]];
    }
  }

  /** Reading the leading digit first: its weight is 10^(digits after it). */
  lemma {:induction false} ValueCons(c: char, s: string)
    requires IsDigit(c) && AllDigits(s)
    ensures AllDigits([c] + s) && Value([c] + s) == DigitValue(c) * Pow10(|s|) + Value(s)
  {
    if s != [] {
      var init, last := s[..|s| - 1], s[|s| - 1];
      ValueCons(c, init);
      assert [c] + s == ([c] + init) + [last];
      ValueSnoc([c] + init, last);
      ValueSnoc(init, last);
      assert init + [last] == s;
      ScaleByTen(DigitValue(c), Pow10(|init|));
    } else {
      assert [c] + s == [c];
      assert ([c] + s)[..0] == [];
    }
  }

  /** A number below 10^w has at most w digits. */
  lemma {:induction false} ToDecimalLength(n: nat, w: nat)
    requires 1 <= w && n < Pow10(w)
    ensures |ToDecimal(n)| <= w
  {
    if n >= 10 {
      assert w != 1;
      assert n / 10 < Pow10(w - 1);
      ToDecimalLength(n / 10, w - 1);
    }
  }

  /** On digit strings of one length, the string order is the numeric order. */
  lemma {:induction false} LexLessIsNumericLess(a: string, b: string)
    requires AllDigits(a) && AllDigits(b) && |a| == |b|
    ensures LexLess(a, b) <==> Value(a) < Value(b)
  {
    if a != [] {
      var ta, tb := a[1..], b[1..];
      assert a == [a[0]] + ta && b == [b[0]] + tb;
      ValueCons(a[0], ta);
      ValueCons(b[0], tb);
      ValueBound(ta);
      ValueBound(tb);
      var p := Pow10(|ta|);
      var da, db := DigitValue(a[0]), DigitValue(b[0]);
      if da < db {
        LeadingDigitDominates(da, db, p, Value(ta), Value(tb));
      } else if db < da {
        LeadingDigitDominates(db, da, p, Value(tb), Value(ta));
      } else {
        assert a[0] == b[0] by {
          assert DigitChar(da) == a[0] && DigitChar(db) == b[0];
        }
        LexLessIsNumericLess(ta, tb);
      }
    }
  }

  lemma ScaleByTen(d: nat, p: nat)
    ensures d * (10 * p) == 10 * (d * p)
  {
  }

  lemma LeadingDigitDominates(d1: nat, d2: nat, p: nat, x: nat, y: nat)
    requires d1 < d2 && x < p
    ensures d1 * p + x < d2 * p + y
  {
    assert (d1 + 1) * p <= d2 * p;
  }
}
