/** Decimal numbers as `std::to_chars` writes and `std::from_chars` reads them. */
module Decimal {
  import opened Text

  function Digit(d: nat): char
    requires d < 10
  {
    ('0' as int + d) as char
  }

  predicate IsDigit(c: char) {
    '0' <= c <= '9'
  }

  function DigitValue(c: char): nat
    requires IsDigit(c)
  {
    c as int - '0' as int
  }

  /** `std::to_chars` in base 10. */
  function Digits(n: nat): string {
    if n < 10 then [Digit(n)] else Digits(n / 10) + [Digit(n % 10)]
  }

  /** `max_decimal_for_length_digits`. */
  function MaxDecimal(size: nat): nat {
    if size == 0 then 0 else MaxDecimal(size - 1) * 10 + 9
  }

  /** The bound is exact: these are the numbers that fit the buffer. */
  lemma {:induction false} MaxDecimalFits(n: nat, size: nat)
    requires size > 0
    ensures |Digits(n)| <= size <==> n <= MaxDecimal(size)
    decreases size
  {
    if size > 1 && n >= 10 {
      MaxDecimalFits(n / 10, size - 1);
    } else if size == 1 {
      assert MaxDecimal(1) == MaxDecimal(0) * 10 + 9 == 9;
      assert n >= 10 ==> |Digits(n / 10)| >= 1;
    }
  }

  // ---------------------------------------------------------------- reading

  /** Number of leading digits. */
  function DigitCount(s: string): (n: nat)
    ensures n <= |s| && (n < |s| ==> !IsDigit(s[n])) && forall j :: 0 <= j < n ==> IsDigit(s[j])
  {
    if s == "" || !IsDigit(s[0]) then 0 else 1 + DigitCount(s[1..])
  }

  function Value(s: string): nat
    requires forall j :: 0 <= j < |s| ==> IsDigit(s[j])
  {
    if s == "" then 0 else Value(s[..|s| - 1]) * 10 + DigitValue(s[|s| - 1])
  }

  datatype Number = Num(value: nat) | Bad | TooLarge

  const UINT32 := 0x1_0000_0000

  const UINT64 := 0x1_0000_0000_0000_0000

  /** `std::from_chars` into an unsigned type with the given number of values: reads the digits at the front
      and ignores what follows. */
  function ParseBelow(s: string, bound: nat): Number {
    var n := DigitCount(s);
    if n == 0 then Bad
    else if Value(s[..n]) >= bound then TooLarge
    else Num(Value(s[..n]))
  }

  function ParseUint(s: string): Number {
    ParseBelow(s, UINT32)
  }

  lemma {:induction false} ValueOfDigits(n: nat)
    ensures forall j :: 0 <= j < |Digits(n)| ==> IsDigit(Digits(n)[j])
    ensures Digits(n) != "" && Value(Digits(n)) == n
  {
    if n < 10 {
      assert [Digit(n)][..0] == "";
    } else {
      ValueOfDigits(n / 10);
      var d := Digits(n / 10);
      assert (d + [Digit(n % 10)])[..|d|] == d;
    }
  }

  /** Reading back a number that is followed by no digit. */
  lemma ParseDigits(n: nat, rest: string)
    requires n < UINT32 && (rest != "" ==> !IsDigit(rest[0]))
    ensures ParseUint(Digits(n) + rest) == Num(n)
  {
    ParseDigitsBelow(n, rest, UINT32);
  }

  lemma ParseDigitsBelow(n: nat, rest: string, bound: nat)
    requires n < bound && (rest != "" ==> !IsDigit(rest[0]))
    ensures ParseBelow(Digits(n) + rest, bound) == Num(n)
  {
    ValueOfDigits(n);
    var s, d := Digits(n) + rest, Digits(n);
    assert forall j :: 0 <= j < |d| ==> s[j] == d[j];
    assert rest != "" ==> s[|d|] == rest[0];
    assert DigitCount(s) == |d| && s[..|d|] == d;
  }

  // ---------------------------------------------------------------- digits, stated by characters

  const DIGITS := "0123456789"

  lemma DigitAt(c: char)
    ensures IsDigit(c) <==> c in DIGITS
    ensures IsDigit(c) ==> DigitValue(c) < 10 && DIGITS[DigitValue(c)] == c
  {
    if IsDigit(c) { assert DIGITS[DigitValue(c)] == c; }
  }

  /** The `k`-th character of a number, from the right, is its digit for that power of ten. */
  lemma {:induction false} DigitsAre(n: nat, k: nat)
    requires k < |Digits(n)|
    ensures Digits(n)[|Digits(n)| - 1 - k] == DIGITS[n / Power(k) % 10]
  {
    DigitFromRight(n, k);
    if n < 10 {
      DigitOf(n);
    } else if k == 0 {
      DigitOf(n % 10);
    } else {
      DigitsAre(n / 10, k - 1);
      DivTwice(n, Power(k - 1));
    }
  }

  lemma DigitFromRight(n: nat, k: nat)
    requires k < |Digits(n)|
    ensures n < 10 ==> k == 0
    ensures var c := Digits(n)[|Digits(n)| - 1 - k];
      c == if k == 0 then Digit(n % 10) else Digits(n / 10)[|Digits(n / 10)| - k]
  {
  }

  function Power(k: nat): (p: nat)
    ensures p > 0
  {
    if k == 0 then 1 else 10 * Power(k - 1)
  }

  lemma DigitOf(d: nat)
    requires d < 10
    ensures Digit(d) == DIGITS[d]
  {
  }

  lemma DivTwice(n: nat, p: nat)
    requires p > 0
    ensures n / 10 / p == n / (10 * p)
  {
    var q := n / (10 * p);
    var r := n % (10 * p);
    assert n == 10 * p * q + r;
    assert n / 10 == p * q + r / 10 by { assert n == 10 * (p * q) + r; }
    assert r / 10 < p;
    QuotientIs(n / 10, p, q, r / 10);
  }

  lemma QuotientIs(a: nat, p: nat, q: nat, r: nat)
    requires p > 0 && a == p * q + r && r < p
    ensures a / p == q
  {
    var z := a / p;
    assert a == p * z + a % p;
    if z < q { Product(p, z + 1, q); } else if q < z { Product(p, q + 1, z); }
  }

  lemma Product(p: nat, a: nat, b: nat)
    requires a <= b
    ensures p * a <= p * b
  {
  }

  /** `v` begins with the number `n`, written in decimal. */
  ghost predicate BeginsWith(v: string, n: nat) {
    exists k :: 0 < k <= |v| && (forall j :: 0 <= j < k ==> IsDigit(v[j])) && (k < |v| ==> !IsDigit(v[k])) && Value(v[..k]) == n
  }

  /** `from_chars` gives the number that the text begins with, if there is one and it fits. */
  lemma ParsesBeginning(v: string, bound: nat, n: nat)
    ensures ParseBelow(v, bound) == Num(n) <==> BeginsWith(v, n) && n < bound
  {
    var d := DigitCount(v);
    if k :| 0 < k <= |v| && (forall j :: 0 <= j < k ==> IsDigit(v[j])) && (k < |v| ==> !IsDigit(v[k])) && Value(v[..k]) == n {
      assert k == d;
    }
  }
}
