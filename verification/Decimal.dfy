/** Decimal text and the numbers it stands for. */
module Decimal {
  import opened Chars

  predicate AllDigits(s: string) { forall i | 0 <= i < |s| :: IsDigit(s[i]) }

  function DigitValue(c: char): (d: nat)
    requires IsDigit(c)
    ensures d < 10
  {
    c as int - '0' as int
  }

  function DigitChar(d: nat): (c: char)
    requires d < 10
    ensures IsDigit(c) && DigitValue(c) == d
  {
    ('0' as int + d) as char
  }

  function Value(s: string): nat
    requires AllDigits(s)
  {
    if s == [] then 0 else 10 * Value(s[..|s| - 1]) + DigitValue(s[|s| - 1])
  }

  /** Item 9 of SemVer 2.0.0: numeric identifiers have no leading zeros. */
  predicate Canonical(s: string) {
    && |s| > 0 && AllDigits(s)
    && (|s| > 1 ==> s[0] != '0')
  }

  function Render(n: nat): (s: string)
    ensures Canonical(s) && Value(s) == n
    ensures n > 0 ==> s[0] != '0'
  {
    if n < 10 then
      var s := [DigitChar(n)];
      assert s[..0] == [];
      s
    else
      var s := Render(n / 10) + [DigitChar(n % 10)];
      assert s[..|s| - 1] == Render(n / 10);
      s
  }

  lemma {:induction false} LeadingDigitCounts(s: string)
    requires |s| > 0 && AllDigits(s) && s[0] != '0'
    ensures Value(s) > 0
  {
    if |s| == 1 {
      assert s[..0] == [];
    } else {
      LeadingDigitCounts(s[..|s| - 1]);
    }
  }

  /** Without leading zeros, different texts are different numbers. */
  lemma {:induction false} CanonicalValuesDiffer(a: string, b: string)
    requires Canonical(a) && Canonical(b) && Value(a) == Value(b)
    ensures a == b
    decreases |a| + |b|
  {
    var p, q := a[..|a| - 1], b[..|b| - 1];
    assert Value(p) == Value(q) && a[|a| - 1] == b[|b| - 1] by {
      assert Value(a) == 10 * Value(p) + DigitValue(a[|a| - 1]);
      assert Value(b) == 10 * Value(q) + DigitValue(b[|b| - 1]);
    }
    if p == [] || q == [] {
      if p != [] { LeadingDigitCounts(p); }
      if q != [] { LeadingDigitCounts(q); }
      assert p == q;
    } else {
      CanonicalValuesDiffer(p, q);
    }
    assert a == p + [a[|a| - 1]] && b == q + [b[|b| - 1]];
  }

  /** Leading zeros do not change the value. */
  lemma {:induction false} PaddingKeepsValue(zeros: string, s: string)
    requires AllDigits(s) && forall i | 0 <= i < |zeros| :: zeros[i] == '0'
    ensures AllDigits(zeros + s) && Value(zeros + s) == Value(s)
    decreases |s| + |zeros|
  {
    var t := zeros + s;
    if s == [] {
      assert t == zeros;
      if zeros != [] {
        PaddingKeepsValue(zeros[..|zeros| - 1], []);
        assert zeros[..|zeros| - 1] + [] == zeros[..|zeros| - 1];
      }
    } else {
      PaddingKeepsValue(zeros, s[..|s| - 1]);
      assert t[..|t| - 1] == zeros + s[..|s| - 1];
    }
  }

  function Pow10(n: nat): nat { if n == 0 then 1 else 10 * Pow10(n - 1) }

  lemma ValueOfLast(s: string, c: char)
    requires AllDigits(s) && IsDigit(c)
    ensures AllDigits(s + [c]) && Value(s + [c]) == 10 * Value(s) + DigitValue(c)
  {
    assert (s + [c])[..|s|] == s;
  }

  lemma TenTimes(v: nat, p: nat, x: nat, d: nat)
    ensures 10 * (v * p + x) + d == v * (10 * p) + (10 * x + d)
  {
  }

  /** Positional notation: the digits in front weigh ten times more per digit behind them. */
  lemma {:induction false} ValueIsPositional(a: string, b: string)
    requires AllDigits(a) && AllDigits(b)
    ensures AllDigits(a + b) && Value(a + b) == Value(a) * Pow10(|b|) + Value(b)
    decreases |b|
  {
    hide DigitValue;
    if b == [] {
      assert a + b == a;
    } else {
      hide Value;
      var init, c := b[..|b| - 1], b[|b| - 1];
      assert b == init + [c] && a + b == a + init + [c];
      ValueIsPositional(a, init);
      ValueOfLast(a + init, c);
      ValueOfLast(init, c);
      TenTimes(Value(a), Pow10(|init|), Value(init), DigitValue(c));
    }
  }

  lemma DigitsAreTheirValue(d: nat)
    requires d < 10
    ensures Value([('0' as int + d) as char]) == d
  {
  }
}
