/** Decimal rendering with zero padding, as `format!("{n:0width$}")` and `padStart` produce it. */
module Decimal {
  import Numeral

  function Digit(d: nat): char
    requires d < 10
  {
    '0' + d as char
  }

  function Decimal(n: nat): (s: string)
    ensures |s| > 0
  {
    if n < 10 then [Digit(n)] else Decimal(n / 10) + [Digit(n % 10)]
  }

  function Zeros(n: nat): (s: string)
    ensures |s| == n
  {
    if n == 0 then "" else "0" + Zeros(n - 1)
  }

  /** Zero-padded on the left to at least `width` characters. */
  function Padded(n: nat, width: nat): string {
    var s := Decimal(n);
    if |s| >= width then s else Zeros(width - |s|) + s
  }

  function Pow10(w: nat): (p: nat)
    ensures p > 0
  {
    Numeral.Pow(10, w)
  }

  /** The `width` lowest digits. */
  function Fixed(n: nat, width: nat): (s: string)
    ensures |s| == width
  {
    Spelled(Numeral.Digits(10, n, width))
  }

  function Spelled(digits: seq<nat>): (s: string)
    ensures |s| == |digits|
  {
    if digits == [] then "" else Spelled(digits[..|digits| - 1]) + [Digit(digits[|digits| - 1] % 10)]
  }

  lemma FixedLast(n: nat, width: nat)
    requires width > 0
    ensures Fixed(n, width) == Fixed(n / 10, width - 1) + [Digit(n % 10)]
  {
    var before := Numeral.Digits(10, n / 10, width - 1);
    assert Numeral.Digits(10, n, width) == before + [n % 10];
    assert (before + [n % 10])[..width - 1] == before;
  }

  lemma {:induction false} FixedZero(width: nat)
    ensures Fixed(0, width) == Zeros(width)
  {
    if width > 0 {
      FixedZero(width - 1);
      FixedLast(0, width);
      ZerosEnd(width - 1);
    }
  }

  lemma {:induction false} ZerosEnd(n: nat)
    ensures Zeros(n + 1) == Zeros(n) + "0"
  {
    if n > 0 {
      ZerosEnd(n - 1);
    }
  }

  lemma TenthFits(n: nat, width: nat)
    requires width > 0 && n < Pow10(width)
    ensures n / 10 < Pow10(width - 1) && (n >= 10 ==> width > 1)
  {
  }

  lemma PaddedLast(n: nat, width: nat)
    requires n >= 10 && width > 0
    ensures Padded(n, width) == Padded(n / 10, width - 1) + [Digit(n % 10)]
  {
    var s, d := Decimal(n / 10), [Digit(n % 10)];
    hide Zeros;
    assert Decimal(n) == s + d;
    if |s| < width - 1 {
      assert Zeros(width - 1 - |s|) + (s + d) == Zeros(width - 1 - |s|) + s + d;
    }
  }

  /** Every number below 10^width is padded to exactly `width` characters. */
  lemma {:induction false} PaddedIsFixed(n: nat, width: nat)
    requires width > 0 && n < Pow10(width)
    ensures Padded(n, width) == Fixed(n, width)
  {
    FixedLast(n, width);
    hide Fixed;
    if n < 10 {
      FixedZero(width - 1);
      assert n / 10 == 0 && n % 10 == n;
    } else {
      TenthFits(n, width);
      hide Padded, Pow10, Decimal;
      PaddedIsFixed(n / 10, width - 1);
      PaddedLast(n, width);
    }
  }

  // --------------------------------------------------------------- reading

  /** Nothing but the ten digits. */
  predicate AllDigits(s: string) {
    forall i :: 0 <= i < |s| ==> '0' <= s[i] <= '9'
  }

  /** The number a reader takes a row of digits for, most significant first. */
  function Reading(s: string): nat
    requires AllDigits(s)
  {
    if s == "" then 0 else 10 * Reading(s[..|s| - 1]) + (s[|s| - 1] as int - '0' as int)
  }

  lemma ReadingAppend(s: string, d: nat)
    requires AllDigits(s) && d < 10
    ensures AllDigits(s + [Digit(d)]) && Reading(s + [Digit(d)]) == 10 * Reading(s) + d
  {
    assert (s + [Digit(d)])[..|s|] == s;
  }

  lemma {:induction false} DecimalReads(n: nat)
    ensures AllDigits(Decimal(n)) && Reading(Decimal(n)) == n
  {
    if n < 10 {
      assert "" + [Digit(n)] == [Digit(n)];
      ReadingAppend("", n);
    } else {
      DecimalReads(n / 10);
      ReadingAppend(Decimal(n / 10), n % 10);
      hide Digit, Reading, AllDigits;
    }
  }

  lemma {:induction false} LeadingZeros(n: nat, s: string)
    requires AllDigits(s)
    ensures AllDigits(Zeros(n) + s) && Reading(Zeros(n) + s) == Reading(s)
  {
    if s != "" {
      LeadingZeros(n, s[..|s| - 1]);
      assert (Zeros(n) + s)[..n + |s| - 1] == Zeros(n) + s[..|s| - 1];
    } else if n > 0 {
      LeadingZeros(n - 1, "");
      ZerosEnd(n - 1);
      assert Zeros(n) + "" == Zeros(n - 1) + "" + [Digit(0)];
      ReadingAppend(Zeros(n - 1) + "", 0);
    }
  }

  /** A padded number has digits only, and reads as the number, at any width. */
  lemma PaddedReads(n: nat, width: nat)
    ensures AllDigits(Padded(n, width)) && Reading(Padded(n, width)) == n
  {
    DecimalReads(n);
    LeadingZeros(if |Decimal(n)| < width then width - |Decimal(n)| else 0, Decimal(n));
    hide AllDigits, Reading, Decimal, Zeros;
  }

  /** Strict lexicographic order, by character code. */
  predicate Less(a: string, b: string) {
    if b == "" then false
    else if a == "" then true
    else a[0] < b[0] || (a[0] == b[0] && Less(a[1..], b[1..]))
  }

  lemma {:induction false} LessConcat(a: string, b: string, x: string, y: string)
    requires |a| == |b|
    ensures Less(a + x, b + y) <==> Less(a, b) || (a == b && Less(x, y))
  {
    if a == "" {
      assert a + x == x && b + y == y;
    } else {
      LessConcat(a[1..], b[1..], x, y);
      assert (a + x)[1..] == a[1..] + x && (b + y)[1..] == b[1..] + y;
      assert a == [a[0]] + a[1..] && b == [b[0]] + b[1..];
    }
  }

  lemma {:induction false} LessIrreflexive(a: string)
    ensures !Less(a, a)
  {
    if a != "" {
      LessIrreflexive(a[1..]);
    }
  }

  /** Fixed-width numerals sort as numbers. */
  lemma {:induction false} FixedOrder(n: nat, m: nat, width: nat)
    requires n < Pow10(width) && m < Pow10(width)
    ensures Less(Fixed(n, width), Fixed(m, width)) <==> n < m
    ensures Fixed(n, width) == Fixed(m, width) <==> n == m
  {
    if width > 0 {
      FixedLast(n, width);
      FixedLast(m, width);
      hide Fixed;
      FixedOrder(n / 10, m / 10, width - 1);
      var a, b := [Digit(n % 10)], [Digit(m % 10)];
      LessConcat(Fixed(n / 10, width - 1), Fixed(m / 10, width - 1), a, b);
      assert a[1..] == "" && b[1..] == "";
      assert n == n / 10 * 10 + n % 10 && m == m / 10 * 10 + m % 10;
      if Fixed(n, width) == Fixed(m, width) {
        assert Fixed(n, width)[..width - 1] == Fixed(m, width)[..width - 1];
        assert Fixed(n, width)[width - 1] == Fixed(m, width)[width - 1];
      }
    }
  }
}
