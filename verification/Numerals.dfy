/** Positional numerals: writing a number in a base, and reading it back. */
module Numerals {
  import opened Words

  /** A digit below sixteen as a character. */
  function DigitChar(d: nat, upper: bool): char
    requires d < 16
  {
    if d <= 9 then '0' + d as char else (if upper then 'A' else 'a') + (d - 10) as char
  }

  function DigitValue(c: char): nat {
    if '0' <= c <= '9' then c as nat - '0' as nat
    else if 'a' <= c <= 'f' then c as nat - 'a' as nat + 10
    else if 'A' <= c <= 'F' then c as nat - 'A' as nat + 10
    else 0
  }

  /** The numeral of m, without redundant leading zeros. */
  function Digits(m: nat, base: nat, upper: bool): (s: string)
    requires 2 <= base <= 16
    ensures s != []
  {
    if m < base then [DigitChar(m, upper)]
    else
      assert m / base < m;
      Digits(m / base, base, upper) + [DigitChar(m % base, upper)]
  }

  /** The value of a numeral. */
  function Value(s: string, base: nat): nat {
    if s == [] then 0 else Value(s[..|s| - 1], base) * base + DigitValue(s[|s| - 1])
  }

  function Pow(base: nat, n: nat): nat {
    if n == 0 then 1 else base * Pow(base, n - 1)
  }

  lemma CharRoundTrip(d: nat, upper: bool)
    requires d < 16
    ensures DigitValue(DigitChar(d, upper)) == d
    ensures DigitChar(d, upper) == '0' <==> d == 0
    ensures DigitChar(d, upper) != '-' && DigitChar(d, upper) != ' '
  {
  }

  /** Reading a numeral back gives the number. */
  lemma {:induction false} DigitsRoundTrip(m: nat, base: nat, upper: bool)
    requires 2 <= base <= 16
    ensures Value(Digits(m, base, upper), base) == m
  {
    if m < base {
      assert Digits(m, base, upper)[..0] == [];
      CharRoundTrip(m, upper);
    } else {
      DigitsRoundTrip(m / base, base, upper);
      CharRoundTrip(m % base, upper);
      ValueSnoc(Digits(m / base, base, upper), DigitChar(m % base, upper), base);
      DivMod(m, base);
    }
  }

  lemma ValueSnoc(s: string, c: char, base: nat)
    ensures Value(s + [c], base) == Value(s, base) * base + DigitValue(c)
  {
    assert (s + [c])[..|s|] == s;
  }

  /** A numeral starts with 0 only when it is the numeral of 0, and has no sign or space. */
  lemma {:induction false} DigitsShape(m: nat, base: nat, upper: bool)
    requires 2 <= base <= 16
    ensures Digits(m, base, upper)[0] == '0' <==> m == 0
    ensures forall i :: 0 <= i < |Digits(m, base, upper)| ==>
            Digits(m, base, upper)[i] != '-' && Digits(m, base, upper)[i] != ' '
  {
    if m < base {
      CharRoundTrip(m, upper);
    } else {
      assert 0 < m / base < m;
      DigitsShape(m / base, base, upper);
      CharRoundTrip(m % base, upper);
    }
  }

  /** Leading zeros do not change the value. */
  lemma {:induction false} ZerosRoundTrip(n: nat, s: string, base: nat)
    ensures Value(Repeat('0', n) + s, base) == Value(s, base)
    decreases |s|, n
  {
    var t := Repeat('0', n) + s;
    if s != [] {
      assert t[..|t| - 1] == Repeat('0', n) + s[..|s| - 1];
      ZerosRoundTrip(n, s[..|s| - 1], base);
    } else if n > 0 {
      assert t == Repeat('0', n) && t[..|t| - 1] == Repeat('0', n - 1) + [];
      ZerosRoundTrip(n - 1, [], base);
    }
  }

  function Repeat(c: char, n: nat): (s: string)
    ensures |s| == n
  {
    seq(n, _ => c)
  }

  // ---------------------------------------------------------------- from the top digit down

  /** A string of digits of the base. */
  ghost predicate Numeral(s: string, base: nat, upper: bool) {
    forall i :: 0 <= i < |s| ==>
        DigitValue(s[i]) < base && DigitValue(s[i]) < 16 && s[i] == DigitChar(DigitValue(s[i]), upper)
  }

  lemma {:induction false} DigitsAreNumeral(m: nat, base: nat, upper: bool)
    requires 2 <= base <= 16
    ensures Numeral(Digits(m, base, upper), base, upper)
  {
    if m < base {
      CharRoundTrip(m, upper);
    } else {
      DigitsAreNumeral(m / base, base, upper);
      CharRoundTrip(m % base, upper);
    }
  }

  lemma PowPositive(base: nat, n: nat)
    requires base > 0
    ensures Pow(base, n) > 0
  {
  }

  lemma MulLess(a: nat, b: nat, p: nat)
    requires a * p < b * p
    ensures a < b
  {
  }

  lemma DivIs(v: nat, b: nat, q: nat, r: nat)
    requires v == q * b + r && r < b
    ensures v / b == q && v % b == r
  {
    DivMod(v, b);
    MulLess(q, v / b + 1, b);
    MulLess(v / b, q + 1, b);
  }

  lemma BoundStep(v: nat, d: nat, p: nat, base: nat)
    requires v < p && d < base
    ensures v * base + d < base * p
  {
    MulAtMost(v + 1, p, base);
    assert (v + 1) * base == v * base + base;
  }

  lemma {:induction false} ValueBound(s: string, base: nat, upper: bool)
    requires base > 0 && Numeral(s, base, upper)
    ensures Value(s, base) < Pow(base, |s|)
  {
    if s != [] {
      var init := s[..|s| - 1];
      ValueBound(init, base, upper);
      BoundStep(Value(init, base), DigitValue(s[|s| - 1]), Pow(base, |init|), base);
    }
  }

  /** The first digit of a numeral counts for its place value. */
  lemma {:induction false} ValueHead(s: string, base: nat)
    requires s != []
    ensures Value(s, base) == DigitValue(s[0]) * Pow(base, |s| - 1) + Value(s[1..], base)
  {
    var n := |s| - 1;
    if n == 0 {
      assert s[1..] == [] && s[..0] == [];
      assert DigitValue(s[0]) * Pow(base, 0) == DigitValue(s[0]);
    } else {
      var init := s[..n];
      ValueHead(init, base);
      assert s[1..][..n - 1] == init[1..];
      HeadStep(DigitValue(s[0]), Pow(base, n - 1), Value(init[1..], base), base);
      assert Pow(base, n) == base * Pow(base, n - 1);
    }
  }

  lemma HeadStep(d: nat, p: nat, v: nat, base: nat)
    ensures (d * p + v) * base == d * (base * p) + v * base
  {
    assert d * (base * p) == (d * p) * base;
  }

  /** Dividing by the place value gives the first digit and leaves the rest. */
  lemma TopDigit(s: string, base: nat, upper: bool)
    requires base > 0 && s != [] && Numeral(s, base, upper)
    ensures var p := Pow(base, |s| - 1);
            && p > 0 && Value(s, base) / p == DigitValue(s[0]) && Value(s, base) % p == Value(s[1..], base)
            && (p / base == if |s| > 1 then Pow(base, |s| - 2) else if base > 1 then 0 else 1)
  {
    var p := Pow(base, |s| - 1);
    PowPositive(base, |s| - 1);
    ValueHead(s, base);
    ValueBound(s[1..], base, upper);
    DivIs(Value(s, base), p, DigitValue(s[0]), Value(s[1..], base));
    if |s| > 1 {
      assert p == Pow(base, |s| - 2) * base + 0;
      DivIs(p, base, Pow(base, |s| - 2), 0);
    } else if base > 1 {
      DivIs(1, base, 0, 1);
    }
  }
}
