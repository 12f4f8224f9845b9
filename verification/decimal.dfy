/** Decimal digit strings: Python's `int(s)` restricted to ASCII digits,
    `str(n)` for a natural number, and the zero padding of `{n:0Wd}`. */
module Decimal {
  import opened Wrappers

  predicate IsDigit(c: char) {
    '0' <= c <= '9'
  }

  predicate AllDigits(s: string) {
    forall i :: 0 <= i < |s| ==> IsDigit(s[i])
  }

  function DigitValue(c: char): nat
    requires IsDigit(c)
  {
    c as nat - '0' as nat
  }

  function DigitChar(d: nat): (c: char)
    requires d < 10
    ensures IsDigit(c) && DigitValue(c) == d
  {
    ('0' as nat + d) as char
  }

  /** The number a digit string denotes, most significant digit first. */
  function Value(s: string): nat
    requires AllDigits(s)
  {
    if |s| == 0 then 0 else Value(s[..|s| - 1]) * 10 + DigitValue(s[|s| - 1])
  }

  /** Python's `int(s)` on the strings this model admits: a non-empty run of
      ASCII digits converts, anything else is a `ValueError` (`None`). */
  function ParseNat(s: string): (r: Option<nat>)
    ensures r.Some? <==> s != [] && AllDigits(s)
  {
    if s != [] && AllDigits(s) then Some(Value(s)) else None
  }

  /** Python's `str(n)` for a natural number: no leading zero, and reading
      it back gives `n`. */
  function NatToString(n: nat): (r: string)
    ensures r != [] && AllDigits(r)
    ensures Value(r) == n
    ensures |r| > 1 ==> r[0] != '0'
  {
    if n < 10 then [DigitChar(n)]
    else
      var r := NatToString(n / 10) + [DigitChar(n % 10)];
      assert r[..|r| - 1] == NatToString(n / 10);
      r
  }

  function Zeros(k: nat): (r: string)
    ensures |r| == k && AllDigits(r)
    ensures forall i :: 0 <= i < k ==> r[i] == '0'
  {
    if k == 0 then [] else Zeros(k - 1) + ['0']
  }

  /** The zero padding of Python's `{n:0wd}` format: `s` widened to at
      least `w` characters with leading `'0'`s. */
  function PadLeft(s: string, w: nat): (r: string)
    ensures |r| == if |s| < w then w else |s|
    ensures r[|r| - |s|..] == s
    ensures forall i :: 0 <= i < |r| - |s| ==> r[i] == '0'
  {
    if |s| < w then Zeros(w - |s|) + s else s
  }

  /** Leading zeros do not change the value of a digit string. */
  lemma ZerosValue(k: nat)
    ensures Value(Zeros(k)) == 0
  {
    AllZerosValue(Zeros(k));
  }

  /** A string of `'0'`s is a numeral for zero. */
  lemma {:induction false} AllZerosValue(s: string)
    requires forall i :: 0 <= i < |s| ==> s[i] == '0'
    ensures AllDigits(s) && Value(s) == 0
  {
    if s != [] {
      var p := s[..|s| - 1];
      assert forall i :: 0 <= i < |p| ==> p[i] == s[i];
      AllZerosValue(p);
    }
  }

  lemma {:induction false} LeadingZerosValue(k: nat, s: string)
    requires AllDigits(s)
    ensures AllDigits(Zeros(k) + s)
    ensures Value(Zeros(k) + s) == Value(s)
    decreases |s|
  {
    var z := Zeros(k) + s;
    if |s| == 0 {
      assert z == Zeros(k);
      ZerosValue(k);
    } else {
      assert z[..|z| - 1] == Zeros(k) + s[..|s| - 1];
      LeadingZerosValue(k, s[..|s| - 1]);
    }
  }

  /** A zero-padded decimal numeral reads back as the number it pads. */
  lemma PaddedNumeralValue(n: nat, w: nat)
    ensures PadLeft(NatToString(n), w) != []
    ensures AllDigits(PadLeft(NatToString(n), w))
    ensures Value(PadLeft(NatToString(n), w)) == n
    ensures ParseNat(PadLeft(NatToString(n), w)) == Some(n)
  {
    var s := NatToString(n);
    var p := PadLeft(s, w);
    if |s| < w {
      assert p == Zeros(w - |s|) + s;
      LeadingZerosValue(w - |s|, s);
    } else {
      assert p == s;
    }
    assert ParseNat(p) == Some(Value(p));
  }

  /** `10^k`. */
  function Pow10(k: nat): (r: nat)
    ensures r >= 1
  {
    if k == 0 then 1 else 10 * Pow10(k - 1)
  }

  /** A numeral of `k` digits stands for less than `10^k`. */
  lemma {:induction false} ValueBound(s: string)
    requires AllDigits(s)
    ensures Value(s) < Pow10(|s|)
    decreases |s|
  {
    if s != [] {
      ValueBound(s[..|s| - 1]);
    }
  }

  /** The first `n` digits of a numeral stand for its value with the other
      `|s| - n` digits cut off. */
  lemma {:induction false} PrefixValue(s: string, n: nat)
    requires AllDigits(s) && n <= |s|
    ensures Value(s[..n]) == Value(s) / Pow10(|s| - n)
    decreases |s| - n
  {
    if n == |s| {
      assert s[..n] == s;
    } else {
      var p := s[..|s| - 1];
      assert p[..n] == s[..n];
      PrefixValue(p, n);
      DropLastDigit(Value(p), DigitValue(s[|s| - 1]), Pow10(|p| - n));
    }
  }

  /** Cutting one more digit off divides by ten once more. */
  lemma DropLastDigit(q: nat, d: nat, p: nat)
    requires d < 10 && p > 0
    ensures (q * 10 + d) / (10 * p) == q / p
  {
    var a, b := q / p, q % p;
    assert q == p * a + b;
    assert q * 10 + d == (10 * p) * a + (10 * b + d);
    DivOfSplit(q * 10 + d, 10 * p, a, 10 * b + d);
  }

  lemma DivOfSplit(x: nat, m: nat, a: nat, r: nat)
    requires m > 0 && x == m * a + r && r < m
    ensures x / m == a
  {
    var k := x / m;
    assert x == m * k + x % m;
    if k > a {
      assert m * k == m * a + m * (k - a);
      MulAtLeast(m, k - a);
    } else if k < a {
      assert m * a == m * k + m * (a - k);
      MulAtLeast(m, a - k);
    }
  }

  lemma {:induction false} MulAtLeast(m: nat, j: nat)
    requires j >= 1
    ensures m * j >= m
    decreases j
  {
    if j > 1 {
      assert m * j == m * (j - 1) + m;
      MulAtLeast(m, j - 1);
    }
  }
}
