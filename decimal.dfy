/**
 * Zero-padded decimal numbers, the form chrono gives the date and time
 * fields of `%Y%m%d_%H%M%S`.
 */
module Decimal {

  predicate IsDigit(c: char) {
    '0' <= c <= '9'
  }

  predicate AllDigits(s: string) {
    forall i :: 0 <= i < |s| ==> IsDigit(s[i])
  }

  function DigitValue(c: char): (n: int)
    requires IsDigit(c)
    ensures 0 <= n < 10
  {
    c as int - '0' as int
  }

  /** The decimal digit of a value below ten; it is the inverse of DigitValue. */
  function Digit(n: int): (c: char)
    requires 0 <= n < 10
    ensures IsDigit(c) && DigitValue(c) == n
  {
    ('0' as int + n) as char
  }

  function Pow10(k: nat): (p: nat)
    ensures p >= 1
  {
    if k == 0 then 1 else 10 * Pow10(k - 1)
  }

  /** The number a string of decimal digits denotes, most significant digit first. */
  function Value(s: string): nat
    requires AllDigits(s)
  {
    if s == [] then 0 else 10 * Value(s[..|s| - 1]) + DigitValue(s[|s| - 1])
  }

  /** A string of k digits denotes a number below 10^k. */
  lemma {:induction false} ValueBound(s: string)
    requires AllDigits(s)
    ensures Value(s) < Pow10(|s|)
    decreases |s|
  {
    if s != [] {
      var init := s[..|s| - 1];
      ValueBound(init);
      assert Value(init) + 1 <= Pow10(|init|);
      assert 10 * Value(init) + 10 <= 10 * Pow10(|init|);
    }
  }

  /**
   * Rust's `{:0w}` of a non-negative number: its decimal digits, padded on
   * the left with zeros to at least w characters.
   */
  function ZeroPadded(n: nat, w: nat): (s: string)
    ensures AllDigits(s) && |s| >= 1 && |s| >= w
    decreases n + w
  {
    (if n < 10 && w <= 1 then "" else ZeroPadded(n / 10, if w == 0 then 0 else w - 1))
      + [Digit(n % 10)]
  }

  lemma ValueSnoc(init: string, c: char)
    requires AllDigits(init) && IsDigit(c)
    ensures AllDigits(init + [c])
    ensures Value(init + [c]) == 10 * Value(init) + DigitValue(c)
  {
    assert (init + [c])[..|init|] == init;
  }

  /** Reading a padded number back gives the number. */
  lemma {:induction false} ValueOfZeroPadded(n: nat, w: nat)
    ensures Value(ZeroPadded(n, w)) == n
    decreases n + w
  {
    var last := Digit(n % 10);
    if n < 10 && w <= 1 {
      ValueSnoc("", last);
      assert "" + [last] == ZeroPadded(n, w);
    } else {
      var w' := if w == 0 then 0 else w - 1;
      var init := ZeroPadded(n / 10, w');
      assert ZeroPadded(n, w) == init + [last];
      ValueOfZeroPadded(n / 10, w');
      ValueSnoc(init, last);
      assert 10 * (n / 10) + n % 10 == n;
    }
  }

  /** A number below 10^w, padded to w, takes exactly w characters. */
  lemma {:induction false} ZeroPaddedWidth(n: nat, w: nat)
    requires 1 <= w && n < Pow10(w)
    ensures |ZeroPadded(n, w)| == w
    decreases w
  {
    if !(n < 10 && w <= 1) {
      assert w >= 2;
      assert n / 10 < Pow10(w - 1);
      ZeroPaddedWidth(n / 10, w - 1);
    }
  }

  lemma DivMod10(q: nat, r: int)
    requires 0 <= r < 10
    ensures (10 * q + r) / 10 == q && (10 * q + r) % 10 == r
  {
  }

  /** Any digit string is the padded form of its value at its own width. */
  lemma {:induction false} ZeroPaddedOfValue(s: string)
    requires AllDigits(s) && |s| >= 1
    ensures ZeroPadded(Value(s), |s|) == s
    decreases |s|
  {
    var init, c := s[..|s| - 1], s[|s| - 1];
    var n := Value(s);
    assert n == 10 * Value(init) + DigitValue(c);
    DivMod10(Value(init), DigitValue(c));
    assert Digit(DigitValue(c)) == c;
    if |s| == 1 {
      assert init == "";
      assert ZeroPadded(n, 1) == [Digit(n % 10)];
    } else {
      ZeroPaddedOfValue(init);
      assert ZeroPadded(n, |s|) == ZeroPadded(n / 10, |s| - 1) + [Digit(n % 10)];
    }
    assert s == init + [c];
  }
}
