/** `itoa`: a 64-bit integer written backwards into a 20-byte buffer. */
module Itoa {
  import opened Wrappers

  const MIN_INT64 := -0x8000_0000_0000_0000
  const MAX_INT64 := 0x7FFF_FFFF_FFFF_FFFF

  /** Negation of a 64-bit integer, which wraps on the minimum. */
  function Negate64(n: int): int {
    if n == MIN_INT64 then MIN_INT64 else -n
  }

  function Digit(d: nat): char
    requires d < 10
  {
    '0' + d as char
  }

  /** The digits of a positive number, most significant first; nothing for 0. */
  function Digits(n: nat): string {
    if n == 0 then "" else Digits(n / 10) + [Digit(n % 10)]
  }

  /** What `itoa` returns for n: on the minimum, negation overflows and only the sign is written. */
  function Text(n: int): string {
    if n == 0 then "0"
    else if n == MIN_INT64 then "-"
    else if n < 0 then "-" + Digits(-n)
    else Digits(n)
  }

  function Power10(k: nat): nat {
    if k == 0 then 1 else 10 * Power10(k - 1)
  }

  lemma Power10Of19()
    ensures Power10(19) == 10_000_000_000_000_000_000
  {
    assert Power10(5) == 100_000;
    assert Power10(10) == 10_000_000_000;
    assert Power10(15) == 1_000_000_000_000_000;
  }

  method Itoa(n: int) returns (s: string)
    requires MIN_INT64 <= n <= MAX_INT64
    ensures s == Text(n)
  {
    if n == 0 {
      return "0";
    }
    var neg := n < 0;
    var m := n;
    if neg {
      m := Negate64(m);
    }
    var b := new char[20];
    Power10Of19();
    var i := WriteDigits(b, m);
    ghost var digits := b[i..];
    if neg {
      i := i - 1;
      b[i] := '-';
      assert b[i..] == ['-'] + digits;
    }
    s := b[i..];
  }

  lemma Regroup(high: string, c: char, low: string)
    ensures (high + [c]) + low == high + ([c] + low)
  {
  }

  /** A number with k digits at most has one digit less once divided by ten. */
  lemma OneDigitLess(m: nat, k: nat)
    requires 0 < m < Power10(k)
    ensures k > 0 && m / 10 < Power10(k - 1)
  {
  }

  /** The loop of `itoa`: digits are written from the end of the buffer; one cell stays free for the sign. */
  method WriteDigits(b: array<char>, n: int) returns (i: nat)
    requires b.Length == 20 && n < Power10(19)
    modifies b
    ensures 1 <= i <= 20
    ensures b[i..] == if n > 0 then Digits(n) else ""
  {
    hide Power10;
    i := b.Length;
    var m := n;
    while m > 0
      invariant 1 <= i <= 20 && m < Power10(i - 1)
      invariant n <= 0 ==> m == n && i == 20
      invariant n > 0 ==> m >= 0 && Digits(n) == Digits(m) + b[i..]
    {
      OneDigitLess(m, i - 1);
      ghost var written := b[i..];
      i := i - 1;
      b[i] := Digit(m % 10);
      assert b[i..] == [Digit(m % 10)] + written;
      Regroup(Digits(m / 10), Digit(m % 10), written);
      assert Digits(m) == Digits(m / 10) + [Digit(m % 10)];
      m := m / 10;
    }
    assert n > 0 ==> Digits(m) == "" && "" + b[i..] == b[i..];
  }

  // ---- Reading it back ----

  predicate IsDigit(c: char) {
    '0' <= c <= '9'
  }

  function DigitValue(c: char): nat
    requires IsDigit(c)
  {
    c as int - '0' as int
  }

  lemma DigitValueOf(d: nat)
    requires d < 10
    ensures IsDigit(Digit(d)) && DigitValue(Digit(d)) == d
    ensures d > 0 ==> Digit(d) != '0'
  {
  }

  function ParseDigits(s: string): Option<nat> {
    if s == "" then Some(0)
    else
      var c := s[|s| - 1];
      var high := ParseDigits(s[..|s| - 1]);
      if high.None? || !IsDigit(c) then None
      else Some(10 * high.value + DigitValue(c))
  }

  /** A signed decimal number: an optional '-' and at least one digit. */
  function Parse(s: string): Option<int> {
    var neg := s != "" && s[0] == '-';
    var ds := if neg then s[1..] else s;
    var abs := ParseDigits(ds);
    if ds == "" || abs.None? then None
    else Some(if neg then -(abs.value as int) else abs.value)
  }

  lemma {:induction false} DigitsParse(n: nat)
    ensures ParseDigits(Digits(n)) == Some(n)
    ensures n > 0 ==> Digits(n) != "" && '1' <= Digits(n)[0] <= '9'
  {
    if n > 0 {
      DigitsParse(n / 10);
      DigitValueOf(n % 10);
      var s := Digits(n);
      assert s == Digits(n / 10) + [Digit(n % 10)];
      assert s[..|s| - 1] == Digits(n / 10);
      assert s[|s| - 1] == Digit(n % 10);
    }
  }

  /** Reading the text as a signed decimal gives n back for every 64-bit n but the minimum. */
  lemma RoundTrip(n: int)
    requires MIN_INT64 <= n <= MAX_INT64
    ensures Parse(Text(n)) == Some(n) <==> n != MIN_INT64
  {
    if n == 0 {
      assert ParseDigits("0") == Some(0) by {
        assert "0"[..0] == "";
      }
    } else if n == MIN_INT64 {
      assert Text(n)[1..] == "";
    } else if n < 0 {
      DigitsParse(-n);
      assert Text(n)[1..] == Digits(-n);
    } else {
      DigitsParse(n);
    }
  }

  /** No leading zero, and no sign in front of zero. */
  lemma NoLeadingZero(n: int)
    requires MIN_INT64 < n <= MAX_INT64
    ensures var s := Text(n); var ds := if n < 0 then s[1..] else s;
            ds != "" && (ds[0] == '0' ==> s == "0" && n == 0)
  {
    if n != 0 {
      DigitsParse(if n < 0 then -n else n);
    }
  }

  lemma DivideTwice(n: nat, p: nat)
    requires p > 0
    ensures n / 10 / p == n / (10 * p)
  {
    var a, b := n / 10 / p, n / (10 * p);
    assert n / 10 == p * a + n / 10 % p;
    assert n == 10 * (n / 10) + n % 10;
    assert n == (10 * p) * b + n % (10 * p);
    assert 10 * (p * a) == (10 * p) * a;
    Between(a, b, 10 * p, n);
  }

  /** The quotient is the only number whose multiple is within reach. */
  lemma Between(a: int, b: int, d: int, n: int)
    requires d > 0 && d * a <= n < d * a + d && d * b <= n < d * b + d
    ensures a == b
  {
    var e := b - a;
    assert d * e == d * b - d * a;
    assert e >= 1 ==> d * e >= d;
    assert e <= -1 ==> d * e <= -d;
  }

  lemma {:induction false} Power10Positive(k: nat)
    ensures Power10(k) > 0
  {
    if k > 0 {
      Power10Positive(k - 1);
    }
  }

  /** The k-th character from the end is the digit of 10^k. */
  lemma {:induction false} DigitAt(n: nat, k: nat)
    requires k < |Digits(n)|
    ensures Power10(k) > 0
    ensures Digits(n)[|Digits(n)| - 1 - k] as int == '0' as int + n / Power10(k) % 10
  {
    Power10Positive(k);
    if k > 0 {
      DigitAt(n / 10, k - 1);
      DivideTwice(n, Power10(k - 1));
      assert Digits(n) == Digits(n / 10) + [Digit(n % 10)];
    }
  }
}
