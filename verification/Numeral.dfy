/** Numbers written with a fixed number of digits, most significant first. */
module Numeral {
  function Pow(base: nat, e: nat): (p: nat)
    ensures base > 0 ==> p > 0
  {
    if e == 0 then 1 else base * Pow(base, e - 1)
  }

  function Value(base: nat, digits: seq<nat>): nat {
    if digits == [] then 0 else Value(base, digits[..|digits| - 1]) * base + digits[|digits| - 1]
  }

  function Quot(v: nat, d: nat): nat
    requires d > 0
  {
    v / d
  }

  function Rem(v: nat, d: nat): nat
    requires d > 0
  {
    v % d
  }

  /** The `n` lowest digits of `v`. */
  function Digits(base: nat, v: nat, n: nat): (ds: seq<nat>)
    requires base > 0
    ensures |ds| == n
    decreases n
  {
    if n == 0 then [] else Digits(base, Quot(v, base), n - 1) + [Rem(v, base)]
  }

  predicate Below(base: nat, digits: seq<nat>) {
    forall i :: 0 <= i < |digits| ==> digits[i] < base
  }

  lemma MultipleIsLarge(k: int, d: nat)
    ensures k >= 1 ==> k * d >= d
    ensures k <= -1 ==> k * d <= -(d as int)
  {
  }

  /** Quotient and remainder are unique. */
  lemma Euclid(a: int, r: int, b: int, s: int, d: nat)
    requires 0 <= r < d && 0 <= s < d && a * d + r == b * d + s
    ensures a == b && r == s
  {
    MultipleIsLarge(a - b, d);
    assert (a - b) * d == s - r;
  }

  lemma DivMod(q: int, d: nat, r: int)
    requires 0 <= r < d
    ensures (q * d + r) / d == q && (q * d + r) % d == r
  {
    var n := q * d + r;
    Euclid(n / d, n % d, q, r, d);
  }

  lemma MulMono(a: nat, b: nat, c: nat)
    requires a <= b
    ensures a * c <= b * c
  {
  }

  lemma {:induction false} DigitsOfValue(base: nat, ds: seq<nat>)
    requires base > 0 && Below(base, ds)
    ensures Digits(base, Value(base, ds), |ds|) == ds && Value(base, ds) < Pow(base, |ds|)
  {
    if ds != [] {
      var front, last := ds[..|ds| - 1], ds[|ds| - 1];
      DigitsOfValue(base, front);
      LastDigit(base, Value(base, front), |front|, last);
      BelowNext(Value(base, front), Pow(base, |front|), base, last);
      hide Digits, Quot, Rem;
    }
  }

  lemma LastDigit(base: nat, v: nat, n: nat, d: nat)
    requires d < base
    ensures Digits(base, v * base + d, n + 1) == Digits(base, v, n) + [d]
  {
    DivMod(v, base, d);
    assert Quot(v * base + d, base) == v && Rem(v * base + d, base) == d;
  }

  lemma BelowNext(v: nat, p: nat, base: nat, d: nat)
    requires v < p && d < base
    ensures v * base + d < base * p
  {
    MulMono(v + 1, p, base);
  }

  lemma QuotientBelow(v: nat, base: nat, p: nat)
    requires base > 0 && v < base * p
    ensures v / base < p
  {
    MultipleIsLarge(v / base - p + 1, base);
    assert v == v / base * base + v % base;
    assert (v / base - p + 1) * base == v / base * base - p * base + base;
  }

  lemma {:induction false} ValueOfDigits(base: nat, v: nat, n: nat)
    requires base > 0 && v < Pow(base, n)
    ensures Value(base, Digits(base, v, n)) == v && Below(base, Digits(base, v, n))
    decreases n
  {
    if n > 0 {
      var q, r := v / base, v % base;
      QuotientBelow(v, base, Pow(base, n - 1));
      ValueOfDigits(base, q, n - 1);
      ValueAppend(base, Digits(base, q, n - 1), r);
      BelowAppend(base, Digits(base, q, n - 1), r);
      QuotientRemainder(v, base);
    }
  }

  lemma QuotientRemainder(v: nat, base: nat)
    requires base > 0
    ensures v / base * base + v % base == v
  {
  }

  lemma BelowAppend(base: nat, ds: seq<nat>, d: nat)
    requires Below(base, ds) && d < base
    ensures Below(base, ds + [d])
  {
  }

  lemma ValueAppend(base: nat, ds: seq<nat>, d: nat)
    ensures Value(base, ds + [d]) == Value(base, ds) * base + d
  {
    assert (ds + [d])[..|ds|] == ds;
  }

  lemma {:induction false} PowSum(base: nat, a: nat, b: nat)
    ensures Pow(base, a + b) == Pow(base, a) * Pow(base, b)
  {
    if a > 0 {
      PowSum(base, a - 1, b);
      MulAssociates(base, Pow(base, a - 1), Pow(base, b));
    }
  }

  lemma MulAssociates(x: nat, y: nat, z: nat)
    ensures x * (y * z) == x * y * z
  {
  }

  lemma Pow256Four()
    ensures Pow(256, 4) == 0x1_0000_0000
  {
    assert Pow(256, 2) == 0x1_0000;
    PowSum(256, 2, 2);
  }
}
