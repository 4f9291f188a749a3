/**
  Decimal rendering of unsigned integers, as Rust's `{}` formatting and
  `to_string` produce it for `u8` and `u16`: the shortest string of ASCII
  digits, most significant first, with no sign and no leading zero.

  `Show` is the rendering; `Value` reads a string of digits back, and the
  lemmas prove the two are inverse on canonical digit strings, so that
  different numbers never print the same.
 */
module Decimal {

  predicate IsDigit(c: char) {
    '0' <= c <= '9'
  }

  predicate AllDigits(s: string) {
    forall i :: 0 <= i < |s| ==> IsDigit(s[i])
  }

  /** The form `Show` produces: non-empty digits, and a leading '0' only in "0" itself. */
  predicate Canonical(s: string) {
    |s| >= 1 && AllDigits(s) && (s[0] == '0' ==> |s| == 1)
  }

  function DigitValue(c: char): (d: nat)
    requires IsDigit(c)
    ensures d < 10
  {
    c as int - '0' as int
  }

  function DigitChar(d: nat): (c: char)
    requires d < 10
    ensures IsDigit(c) && DigitValue(c) == d
  {
    ('0' as int + d) as char
  }

  lemma DigitCharOfValue(c: char)
    requires IsDigit(c)
    ensures DigitChar(DigitValue(c)) == c
  {
  }

  /** The decimal rendering of `n`. */
  function Show(n: nat): (s: string)
    ensures Canonical(s)
    ensures (n < 10) == (|s| == 1)
    ensures (s[0] == '0') == (n == 0)
    decreases n
  {
    if n < 10 then [DigitChar(n)] else Show(n / 10) + [DigitChar(n % 10)]
  }

  /** The number a string of digits denotes (most significant digit first). */
  function Value(s: string): (n: nat)
    requires AllDigits(s)
    decreases |s|
  {
    if s == [] then 0 else Value(s[..|s| - 1]) * 10 + DigitValue(s[|s| - 1])
  }

  function Pow10(k: nat): (p: nat)
    ensures p >= 1
  {
    if k == 0 then 1 else 10 * Pow10(k - 1)
  }

  /** Reading back a rendering gives the number rendered. */
  lemma {:induction false} ValueOfShow(n: nat)
    ensures Value(Show(n)) == n
    decreases n
  {
    var s := Show(n);
    if n < 10 {
      assert s[..|s| - 1] == [];
    } else {
      assert s[..|s| - 1] == Show(n / 10);
      ValueOfShow(n / 10);
    }
  }

  /** A string of digits with no leading zero has a positive value once its first digit is not '0'. */
  lemma {:induction false} ValuePositive(s: string)
    requires |s| >= 1 && AllDigits(s) && s[0] != '0'
    ensures Value(s) >= 1
    decreases |s|
  {
    if |s| > 1 {
      ValuePositive(s[..|s| - 1]);
    }
  }

  /** Rendering the value of a canonical digit string gives that string back. */
  lemma {:induction false} ShowOfValue(s: string)
    requires Canonical(s)
    ensures Show(Value(s)) == s
    decreases |s|
  {
    var p, c := s[..|s| - 1], s[|s| - 1];
    DigitCharOfValue(c);
    if |s| == 1 {
      assert p == [];
      assert s == [c];
    } else {
      assert p[0] == s[0];
      assert Canonical(p);
      ValuePositive(p);
      ShowOfValue(p);
      var v := Value(s);
      assert v == Value(p) * 10 + DigitValue(c);
      assert v / 10 == Value(p) && v % 10 == DigitValue(c);
      assert s == p + [c];
    }
  }

  /** Different numbers have different renderings. */
  lemma ShowInjective(m: nat, n: nat)
    ensures Show(m) == Show(n) <==> m == n
  {
    ValueOfShow(m);
    ValueOfShow(n);
  }

  /** The rendering has at most `k` digits exactly when the number is below 10^k. */
  lemma {:induction false} ShowLength(n: nat, k: nat)
    requires k >= 1
    ensures |Show(n)| <= k <==> n < Pow10(k)
    decreases n
  {
    if n < 10 {
      if k > 1 {
        Pow10Grows(k);
      }
    } else if k == 1 {
    } else {
      ShowLength(n / 10, k - 1);
      assert |Show(n)| == |Show(n / 10)| + 1;
      assert n < Pow10(k) <==> n / 10 < Pow10(k - 1);
    }
  }

  lemma Pow10Grows(k: nat)
    requires k >= 1
    ensures Pow10(k) >= 10
  {
  }
}
