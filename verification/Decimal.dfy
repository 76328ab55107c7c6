/** Decimal text: what template strings print for an index, and what `Number` reads from digits. */
module Decimal {
  import opened Positional

  function DigitChar(d: int): char
    requires 0 <= d < 10
  {
    '0' + d as char
  }

  predicate IsDigit(c: char) {
    '0' <= c <= '9'
  }

  /** `\d*`. */
  predicate AllDigits(s: string) {
    forall i :: 0 <= i < |s| ==> IsDigit(s[i])
  }

  function DigitValues(s: string): (ds: seq<int>)
    requires AllDigits(s)
    ensures AreDigits(10, ds)
  {
    seq(|s|, i requires 0 <= i < |s| => (s[i] - '0') as int)
  }

  function Text(ds: seq<int>): (s: string)
    requires AreDigits(10, ds)
    ensures |s| == |ds|
  {
    seq(|ds|, i requires 0 <= i < |ds| => DigitChar(ds[i]))
  }

  function Print(n: nat): string {
    Text(DigitsOrZero(10, n))
  }

  function Read(s: string): (n: nat)
    requires AllDigits(s)
  {
    ValueBound(10, DigitValues(s));
    Value(10, DigitValues(s))
  }

  lemma ReadOfPrint(n: nat)
    ensures AllDigits(Print(n)) && Print(n) != "" && Read(Print(n)) == n
  {
    var ds := DigitsOrZero(10, n);
    assert DigitValues(Text(ds)) == ds;
  }

  /** A number is printed as all its digits but the last, and then the last. */
  lemma PrintedByLastDigit(n: nat)
    ensures n < 10 ==> Print(n) == ["0123456789"[n]]
    ensures n >= 10 ==> Print(n) == Print(n / 10) + ["0123456789"[n % 10]]
  {
    if 0 < n < 10 {
      assert Digits(10, n) == Digits(10, 0) + [n];
    }
    if n >= 10 {
      assert DigitsOrZero(10, n) == DigitsOrZero(10, n / 10) + [n % 10];
    }
  }
}
