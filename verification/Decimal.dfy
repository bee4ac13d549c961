/** Decimal text of a natural number, as ostream << and istream >> treat it. */
module Decimal {
  import opened Division

  predicate IsDigit(c: char) {
    '0' <= c <= '9'
  }

  function Digit(n: nat): (c: char)
    requires n < 10
    ensures IsDigit(c)
  {
    '0' + n as char
  }

  function Value(c: char): (v: nat)
    requires IsDigit(c)
    ensures v < 10
  {
    (c - '0') as nat
  }

  function Format(n: nat): (s: string)
    ensures s != [] && forall c :: c in s ==> IsDigit(c)
  {
    if n < 10 then [Digit(n)] else Format(n / 10) + [Digit(n % 10)]
  }

  function Parse(s: string): nat
    requires forall c :: c in s ==> IsDigit(c)
  {
    if s == [] then 0 else 10 * Parse(s[..|s| - 1]) + Value(s[|s| - 1])
  }

  lemma {:induction false} RoundTrip(n: nat)
    ensures Parse(Format(n)) == n
  {
    if n >= 10 {
      RoundTrip(n / 10);
      assert Format(n)[..|Format(n)| - 1] == Format(n / 10);
    } else {
      assert Format(n)[..0] == [];
    }
  }

  /** The digit i places from the right is the one for n / 10^i, and the first is 0 only for 0 itself. */
  lemma {:induction false} DigitAt(n: nat, i: nat)
    requires i < |Format(n)|
    ensures var s := Format(n); s[|s| - 1 - i] == "0123456789"[n / Pow10(i) % 10]
    ensures Format(n)[0] == '0' <==> n == 0
  {
    var front := Format(n / 10);
    assert n >= 10 ==> Format(n) == front + [Digit(n % 10)];
    DigitIs(n % 10);
    if n >= 10 {
      DigitAt(n / 10, if i > 0 then i - 1 else 0);
    }
    if i > 0 {
      assert Format(n)[|Format(n)| - 1 - i] == front[|front| - i];
      DivDiv(n, 10, Pow10(i - 1));
    }
  }

  lemma DigitIs(n: nat)
    requires n < 10
    ensures Digit(n) == "0123456789"[n]
  {
  }

  /** Digits count by their place, leading zeros or not. */
  lemma {:induction false} ParseJoined(s: string, t: string)
    requires forall c :: c in s + t ==> IsDigit(c)
    ensures Parse(s + t) == Parse(s) * Pow10(|t|) + Parse(t)
  {
    if t == "" {
      assert s + t == s;
    } else {
      var front, last := t[..|t| - 1], t[|t| - 1];
      assert s + t == (s + front) + [last];
      ParseJoined(s, front);
      Shift(Parse(s), Pow10(|front|), Parse(front), Value(last));
    }
  }

  lemma Shift(a: nat, p: nat, b: nat, v: nat)
    ensures 10 * (a * p + b) + v == a * (10 * p) + (10 * b + v)
  {
  }

  lemma ParseDigit(d: nat)
    requires d < 10
    ensures Parse(["0123456789"[d]]) == d
  {
    assert ["0123456789"[d]][..0] == [];
  }

  /** A page id has at most ten digits. */
  lemma {:induction false} Digits(n: nat, k: nat)
    requires k > 0 && n < Pow10(k)
    ensures |Format(n)| <= k
  {
    if n >= 10 {
      assert k > 1;
      Digits(n / 10, k - 1);
    }
  }

  ghost function Pow10(k: nat): (p: nat)
    ensures p >= 1
  {
    if k == 0 then 1 else 10 * Pow10(k - 1)
  }

  lemma PageIdDigits(n: nat)
    requires n <= 0xFFFF_FFFF
    ensures |Format(n)| <= 10
  {
    assert Pow10(2) == 100;
    assert Pow10(4) == 10000;
    assert Pow10(6) == 1000000;
    assert Pow10(8) == 100000000;
    Digits(n, 10);
  }

  /** No other text of a number is shorter than its decimal form. */
  lemma {:induction false} FormatShortest(s: string)
    requires s != [] && forall c :: c in s ==> IsDigit(c)
    ensures |Format(Parse(s))| <= |s|
  {
    var t, n := s[..|s| - 1], Parse(s);
    assert t == [] ==> Parse(t) == 0;
    if n >= 10 {
      assert n == 10 * Parse(t) + Value(s[|s| - 1]);
      FormatShortest(t);
    }
  }

  /** INVALID_PAGE_ID takes all ten. */
  lemma LastPageIdDigits()
    ensures |Format(0xFFFF_FFFF)| == 10
  {
    assert |Format(429)| == 3;
    assert |Format(429496)| == 6;
    assert |Format(429496729)| == 9;
  }
}
