/**
 Positional notation, most significant digit first, over any base of at least two.

 `Value` reads a digit sequence as a number and `Digits` writes a number without leading zeros.
 Both base58btc codecs, and the hexadecimal step of one of them, are specified with these two.
 */
module Positional {

  /** Base `base` raised to `e`. */
  function Pow(base: nat, e: nat): nat {
    if e == 0 then 1 else base * Pow(base, e - 1)
  }

  /** Every element of `ds` is a digit of `base`. */
  ghost predicate AreDigits(base: nat, ds: seq<int>) {
    forall k :: 0 <= k < |ds| ==> 0 <= ds[k] < base
  }

  /** The number that `ds` writes in `base`. */
  function Value(base: nat, ds: seq<int>): int {
    if ds == [] then 0 else Value(base, ds[..|ds| - 1]) * base + ds[|ds| - 1]
  }

  /** The digits of `n` without leading zeros; zero has none. */
  function Digits(base: nat, n: nat): seq<int>
    requires base >= 2
    decreases n
  {
    if n == 0 then [] else
      DivShrinks(n, base);
      Digits(base, n / base) + [n % base]
  }

  /** How many times `x` occurs before anything else in `s`. */
  function Leading<T(==)>(s: seq<T>, x: T): (k: nat)
    ensures k <= |s|
    ensures forall i :: 0 <= i < k ==> s[i] == x
    ensures k < |s| ==> s[k] != x
  {
    if s == [] || s[0] != x then 0 else 1 + Leading(s[1..], x)
  }

  /** `n` copies of `x`. */
  function Repeat<T>(x: T, n: nat): (s: seq<T>)
    ensures |s| == n
    ensures forall i :: 0 <= i < n ==> s[i] == x
  {
    seq(n, i => x)
  }

  lemma DivShrinks(n: nat, base: nat)
    requires base >= 2 && n > 0
    ensures 0 <= n / base < n
    ensures 0 <= n % base < base
    ensures n / base * base + n % base == n
  {
  }

  lemma {:induction false} PowPositive(base: nat, e: nat)
    requires base >= 1
    ensures Pow(base, e) >= 1
  {
    if e > 0 {
      PowPositive(base, e - 1);
      GrowBy(base, Pow(base, e - 1));
    }
  }

  /** Quotient and remainder by `base` are determined by the sum they form. */
  lemma DivModUnique(base: nat, q: int, r: int, n: int)
    requires base >= 1 && 0 <= r < base
    requires n == q * base + r
    ensures n / base == q && n % base == r
  {
    var d := n / base - q;
    assert d * base == r - n % base;
    assert d >= 1 ==> d * base >= base;
    assert d <= -1 ==> d * base <= 0 - base;
  }

  /** Distributes one shift of `(d * p + v)` by `base`. */
  lemma ShiftSum(base: int, d: int, p: int, v: int)
    ensures (d * p + v) * base == d * (base * p) + v * base
  {
    assert (d * p) * base == d * (base * p);
  }

  /** Taking off the most significant digit removes its weight. */
  lemma {:induction false} ValueCons(base: nat, ds: seq<int>)
    requires |ds| > 0
    ensures Value(base, ds) == ds[0] * Pow(base, |ds| - 1) + Value(base, ds[1..])
  {
    var n := |ds| - 1;
    if n == 0 {
      assert ds[..0] == [] && ds[1..] == [];
    } else {
      var init, tail := ds[..n], ds[1..];
      assert init[1..] == tail[..n - 1];
      assert Value(base, ds) == Value(base, init) * base + ds[n];
      assert Value(base, tail) == Value(base, init[1..]) * base + ds[n];
      ValueCons(base, init);
      ShiftSum(base, ds[0], Pow(base, n - 1), Value(base, init[1..]));
    }
  }

  lemma ShiftBound(base: nat, v: int, p: int, d: int)
    requires 0 <= v < p && 0 <= d < base
    ensures 0 <= v * base + d < base * p
  {
    assert (v + 1) * base <= p * base;
    assert (v + 1) * base == v * base + base;
  }

  /** A digit sequence writes a number below `base` to its length. */
  lemma {:induction false} ValueBound(base: nat, ds: seq<int>)
    requires AreDigits(base, ds)
    ensures 0 <= Value(base, ds) < Pow(base, |ds|)
  {
    if ds == [] {
    } else {
      var n := |ds| - 1;
      ValueBound(base, ds[..n]);
      ShiftBound(base, Value(base, ds[..n]), Pow(base, n), ds[n]);
    }
  }

  /** Leading zeros do not change the number. */
  lemma {:induction false} ValueLeadingZeros(base: nat, k: nat, ds: seq<int>)
    ensures Value(base, Repeat(0, k) + ds) == Value(base, ds)
  {
    if k == 0 {
      assert Repeat(0, 0) + ds == ds;
    } else {
      var all := Repeat(0, k) + ds;
      ValueCons(base, all);
      assert all[1..] == Repeat(0, k - 1) + ds;
      ValueLeadingZeros(base, k - 1, ds);
      assert 0 * Pow(base, |all| - 1) == 0;
    }
  }

  /** `Digits` writes digits, none of them a leading zero, and `Value` reads the number back. */
  lemma {:induction false} ValueOfDigits(base: nat, n: nat)
    requires base >= 2
    ensures AreDigits(base, Digits(base, n))
    ensures n > 0 ==> Digits(base, n) != [] && Digits(base, n)[0] != 0
    ensures Value(base, Digits(base, n)) == n
    decreases n
  {
    if n > 0 {
      DivShrinks(n, base);
      ValueOfDigits(base, n / base);
      var ds := Digits(base, n);
      assert ds[..|ds| - 1] == Digits(base, n / base);
      if n / base == 0 {
        assert ds == [n % base];
      }
    }
  }

  /** `Digits` inverts `Value` on every digit sequence that has no leading zero. */
  lemma {:induction false} DigitsOfValue(base: nat, ds: seq<int>)
    requires base >= 2 && AreDigits(base, ds)
    requires ds != [] ==> ds[0] != 0
    ensures Value(base, ds) >= 0
    ensures Digits(base, Value(base, ds)) == ds
    ensures ds != [] ==> Value(base, ds) > 0
  {
    if ds != [] {
      var n := |ds| - 1;
      var init, last := ds[..n], ds[n];
      DigitsOfValue(base, init);
      var v := Value(base, init);
      assert v * base >= 0;
      DivModUnique(base, v, last, Value(base, ds));
      if n == 0 {
        assert v == 0 && last > 0;
      } else {
        assert v * base >= 1;
      }
      assert ds == init + [last];
    }
  }

  /** Any digit sequence is its leading zeros followed by the minimal digits of its number. */
  lemma {:induction false} StripZeros(base: nat, ds: seq<int>)
    requires base >= 2 && AreDigits(base, ds)
    ensures Value(base, ds) >= 0
    ensures ds[Leading(ds, 0)..] == Digits(base, Value(base, ds))
    ensures ds == Repeat(0, Leading(ds, 0)) + Digits(base, Value(base, ds))
    ensures Value(base, ds) == 0 <==> Leading(ds, 0) == |ds|
  {
    var k := Leading(ds, 0);
    var rest := ds[k..];
    assert ds == Repeat(0, k) + rest;
    ValueLeadingZeros(base, k, rest);
    DigitsOfValue(base, rest);
  }

  /** Prefixing a sequence that does not start with `x` by copies of `x` is undone by counting them. */
  lemma {:induction false} LeadingOfRepeat<T>(x: T, k: nat, s: seq<T>)
    requires s != [] ==> s[0] != x
    ensures Leading(Repeat(x, k) + s, x) == k
  {
    var all := Repeat(x, k) + s;
    assert s != [] ==> all[k] == s[0];
    assert forall i :: 0 <= i < k ==> all[i] == x;
  }

  lemma GrowBy(base: nat, p: nat)
    requires base >= 1
    ensures p <= base * p
  {
  }

  lemma {:induction false} PowMonotone(base: nat, a: nat, b: nat)
    requires base >= 1 && a <= b
    ensures Pow(base, a) <= Pow(base, b)
    decreases b
  {
    if a < b {
      PowMonotone(base, a, b - 1);
      GrowBy(base, Pow(base, b - 1));
    }
  }

  lemma {:induction false} ZerosAreZero(base: nat, ds: seq<int>)
    requires forall k :: 0 <= k < |ds| ==> ds[k] == 0
    ensures Value(base, ds) == 0
  {
    assert ds == Repeat(0, |ds|) + [];
    ValueLeadingZeros(base, |ds|, []);
  }

  lemma LeadingIs<T>(s: seq<T>, x: T, k: nat)
    requires k <= |s|
    requires forall i :: 0 <= i < k ==> s[i] == x
    requires k < |s| ==> s[k] != x
    ensures Leading(s, x) == k
  {
    LeadingOfRepeat(x, k, s[k..]);
    assert s == Repeat(x, k) + s[k..];
  }

  // ----- Change of base

  /** Rewrites a number from one base to another, keeping its count of leading zero digits. */
  function Convert(from: nat, to: nat, ds: seq<int>): seq<int>
    requires from >= 2 && to >= 2 && AreDigits(from, ds)
  {
    ValueBound(from, ds);
    Repeat(0, Leading(ds, 0)) + Digits(to, Value(from, ds))
  }

  /** The result writes the same number in the other base, behind as many zeros. */
  lemma ConvertKeeps(from: nat, to: nat, ds: seq<int>)
    requires from >= 2 && to >= 2 && AreDigits(from, ds)
    ensures AreDigits(to, Convert(from, to, ds))
    ensures Value(to, Convert(from, to, ds)) == Value(from, ds)
    ensures Leading(Convert(from, to, ds), 0) == Leading(ds, 0)
  {
    ValueBound(from, ds);
    var n := Value(from, ds);
    ValueOfDigits(to, n);
    ValueLeadingZeros(to, Leading(ds, 0), Digits(to, n));
    LeadingOfRepeat(0, Leading(ds, 0), Digits(to, n));
  }

  /** Changing the base and changing it back restores every digit sequence. */
  lemma ConvertBack(from: nat, to: nat, ds: seq<int>)
    requires from >= 2 && to >= 2 && AreDigits(from, ds)
    ensures AreDigits(to, Convert(from, to, ds))
    ensures Convert(to, from, Convert(from, to, ds)) == ds
  {
    ConvertKeeps(from, to, ds);
    StripZeros(from, ds);
  }

  /** Any cells that write the same number give the converted digits once their zeros are stripped. */
  lemma ConvertFromCells(from: nat, to: nat, ds: seq<int>, cells: seq<int>)
    requires from >= 2 && to >= 2 && AreDigits(from, ds) && AreDigits(to, cells)
    requires Value(to, cells) == Value(from, ds)
    ensures Convert(from, to, ds) == Repeat(0, Leading(ds, 0)) + cells[Leading(cells, 0)..]
  {
    StripZeros(to, cells);
  }

  /** The digits of `n`, with one digit for zero. */
  function DigitsOrZero(base: nat, n: nat): (ds: seq<int>)
    requires base >= 2
    ensures AreDigits(base, ds) && ds != []
    ensures Value(base, ds) == n
    ensures n > 0 ==> ds[0] != 0
  {
    ValueOfDigits(base, n);
    if n == 0 then ZerosAreZero(base, [0]); [0] else Digits(base, n)
  }

  /** Writing zero with one digit is one digit more than Convert writes, and only zero is so affected. */
  lemma ConvertOrZero(from: nat, to: nat, ds: seq<int>)
    requires from >= 2 && to >= 2 && AreDigits(from, ds)
    ensures Value(from, ds) >= 0
    ensures Repeat(0, Leading(ds, 0)) + DigitsOrZero(to, Value(from, ds))
            == Convert(from, to, ds) + if Leading(ds, 0) == |ds| then [0] else []
  {
    StripZeros(from, ds);
    var n := Value(from, ds);
    assert n == 0 ==> Convert(from, to, ds) == Repeat(0, Leading(ds, 0));
    assert Convert(from, to, ds) + [] == Convert(from, to, ds);
  }

  /** Moving the last digit of a number to the front of what is written already. */
  lemma NextDigit(base: nat, num: nat, written: seq<int>)
    requires base >= 2 && num > 0
    ensures 0 <= num / base < num && 0 <= num % base < base
    ensures Digits(base, num) + written == Digits(base, num / base) + ([num % base] + written)
  {
    DivShrinks(num, base);
    assert Digits(base, num) == Digits(base, num / base) + [num % base];
  }
}
