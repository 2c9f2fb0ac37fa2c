/**
 * One-time codes: `generate` and `code_at` of src-tauri/core/src/totp.rs, `generateTotp` of src/lib/totp.ts,
 * `totp_code` of e2e_seed.rs.
 */
module Hotp {
  import opened Numeral
  import opened Decimal
  import opened Optional
  import opened Text

  // ------------------------------------------------------------ truncation

  /** Where the four bytes start: the low half of the last byte. */
  function Offset(mac: seq<nat>): nat
    requires |mac| >= 20
  {
    mac[|mac| - 1] % 16
  }

  /** The four bytes, glued together with shifts and ors; the top bit is masked off the first one. */
  function Truncated(mac: seq<nat>): nat
    requires |mac| >= 20
  {
    var o := Offset(mac);
    mac[o] % 128 * 0x100_0000 + mac[o + 1] * 0x1_0000 + mac[o + 2] * 0x100 + mac[o + 3]
  }

  lemma FourBytes(a: nat, b: nat, c: nat, d: nat)
    ensures Value(256, [a, b, c, d]) == a * 0x100_0000 + b * 0x1_0000 + c * 0x100 + d
  {
    ValueAppend(256, [], a);
    ValueAppend(256, [a], b);
    ValueAppend(256, [a, b], c);
    ValueAppend(256, [a, b, c], d);
    assert [] + [a] == [a] && [a] + [b] == [a, b] && [a, b] + [c] == [a, b, c] && [a, b, c] + [d] == [a, b, c, d];
  }

  /** Section 5.3 of RFC 4226: the four bytes lie inside the MAC, and the result is their value modulo 2^31. */
  lemma DynamicTruncation(mac: seq<nat>)
    requires |mac| >= 20 && Below(256, mac)
    ensures Offset(mac) + 4 <= |mac|
    ensures Truncated(mac) == Value(256, mac[Offset(mac)..Offset(mac) + 4]) % 0x8000_0000 < 0x8000_0000
  {
    var o := Offset(mac);
    var a, b, c, d := mac[o], mac[o + 1], mac[o + 2], mac[o + 3];
    FourBytes(a, b, c, d);
    assert mac[o..o + 4] == [a, b, c, d];
    assert a == 128 * (a / 128) + a % 128;
  }

  // ----------------------------------------------------------------- codes

  /** `10u32.pow(digits)` in a release build, where the product wraps at 32 bits. */
  function RustModulus(digits: nat): (m: nat)
    ensures digits <= 9 ==> m == Pow10(digits)
    ensures digits == 10 ==> m == 1_410_065_408
    ensures digits <= 10 ==> 0 < m <= Pow10(digits)
  {
    Powers(digits);
    Pow10(digits) % 0x1_0000_0000
  }

  /** `digits` as the clamp lets it through. */
  predicate Clamped(digits: nat) {
    4 <= digits <= 10
  }

  function RustCode(mac: seq<nat>, digits: nat): string
    requires |mac| >= 20 && Clamped(digits)
  {
    Padded(Truncated(mac) % RustModulus(digits), digits)
  }

  function JsCode(mac: seq<nat>, digits: nat): string
    requires |mac| >= 20 && Clamped(digits)
  {
    Padded(Truncated(mac) % Pow10(digits), digits)
  }

  /** `totp_code` with its caller's `{:06}`. */
  function SeedCode(mac: seq<nat>): string
    requires |mac| == 20
  {
    Padded(Truncated(mac) % 1_000_000, 6)
  }

  lemma Powers(digits: nat)
    ensures digits <= 9 ==> Pow10(digits) <= 1_000_000_000
    ensures digits == 10 ==> Pow10(digits) == 10_000_000_000
    ensures digits == 6 ==> Pow10(digits) == 1_000_000
  {
    assert Pow10(2) == 100;
    assert Pow10(4) == 10_000;
    assert Pow10(6) == 1_000_000;
    assert Pow10(8) == 100_000_000;
    assert Pow10(10) == 10_000_000_000;
    PowersGrow(digits, 9);
  }

  lemma {:induction false} PowersGrow(a: nat, b: nat)
    ensures a <= b ==> Pow10(a) <= Pow10(b)
    decreases b
  {
    if a < b {
      PowersGrow(a, b - 1);
    }
  }

  lemma RemainderBelow(n: nat, m: nat)
    requires m > 0
    ensures n % m < m
  {
  }

  /** A code has exactly `digits` characters, and two codes are equal exactly when the numbers behind them are. */
  lemma CodeShape(n: nat, k: nat, digits: nat)
    requires Clamped(digits) && n < Pow10(digits) && k < Pow10(digits)
    ensures |Padded(n, digits)| == digits
    ensures Padded(n, digits) == Padded(k, digits) <==> n == k
    ensures Less(Padded(n, digits), Padded(k, digits)) <==> n < k
  {
    PaddedIsFixed(n, digits);
    PaddedIsFixed(k, digits);
    FixedOrder(n, k, digits);
  }

  lemma CodeLength(n: nat, m: nat, digits: nat)
    requires Clamped(digits) && 0 < m <= Pow10(digits)
    ensures n % m < Pow10(digits) && |Padded(n % m, digits)| == digits
  {
    RemainderBelow(n, m);
    CodeShape(n % m, n % m, digits);
  }

  /** For every MAC and every clamped length, both codes have exactly that many characters. */
  lemma CodesHaveAllDigits(mac: seq<nat>, digits: nat)
    requires |mac| >= 20 && Clamped(digits)
    ensures |RustCode(mac, digits)| == digits && |JsCode(mac, digits)| == digits
  {
    CodeLength(Truncated(mac), RustModulus(digits), digits);
    CodeLength(Truncated(mac), Pow10(digits), digits);
  }

  /**
   * What a reader makes of a code: section 5.3 of RFC 4226 wants the truncated value modulo a power of ten, which is
   * what both clients show up to nine digits, and the TypeScript one at ten as well.
   */
  lemma CodesRead(mac: seq<nat>, digits: nat)
    requires |mac| >= 20 && Clamped(digits)
    ensures AllDigits(RustCode(mac, digits)) && AllDigits(JsCode(mac, digits))
    ensures digits <= 9 ==> Reading(RustCode(mac, digits)) == Truncated(mac) % Pow10(digits)
    ensures digits == 10 ==> Reading(RustCode(mac, digits)) == Truncated(mac) % 1_410_065_408
    ensures Reading(JsCode(mac, digits)) == Truncated(mac) % Pow10(digits)
  {
    PaddedReads(Truncated(mac) % RustModulus(digits), digits);
    PaddedReads(Truncated(mac) % Pow10(digits), digits);
    hide Padded, AllDigits, Reading, Truncated, Pow10;
  }

  lemma SameRemainder(n: nat, digits: nat)
    requires Clamped(digits) && n < 0x8000_0000
    ensures n % RustModulus(digits) == n % Pow10(digits) <==> digits <= 9 || n < 1_410_065_408
  {
    Powers(digits);
    if digits == 10 {
      hide Pow10, RustModulus;
      assert Pow10(digits) == 10_000_000_000 && RustModulus(digits) == 1_410_065_408;
    }
  }

  /**
   * The two implementations show the same code exactly when ten digits were not asked for, or the truncated value is
   * below the wrapped power of ten: 10^10 does not fit the 32 bits the Rust computes it in.
   */
  lemma SameCode(mac: seq<nat>, digits: nat)
    requires |mac| >= 20 && Below(256, mac) && Clamped(digits)
    ensures RustCode(mac, digits) == JsCode(mac, digits) <==> digits <= 9 || Truncated(mac) < 1_410_065_408
  {
    DynamicTruncation(mac);
    hide Truncated, Padded, Pow10, RustModulus;
    var n := Truncated(mac);
    SameRemainder(n, digits);
    CodeLength(n, RustModulus(digits), digits);
    CodeLength(n, Pow10(digits), digits);
    CodeShape(n % RustModulus(digits), n % Pow10(digits), digits);
  }

  /** A MAC for which they differ at ten digits. */
  lemma TenDigitsDiffer() returns (mac: seq<nat>)
    ensures |mac| == 20 && Below(256, mac) && RustCode(mac, 10) != JsCode(mac, 10)
  {
    mac := seq(20, i => if i == 19 then 0 else 255);
    hide RustCode, JsCode;
    assert Truncated(mac) == 0x7FFF_FFFF;
    SameCode(mac, 10);
  }

  lemma SeedCodeIsRustCode(mac: seq<nat>)
    requires |mac| == 20
    ensures SeedCode(mac) == RustCode(mac, 6)
  {
    Powers(6);
  }

  // ------------------------------------------------------------ the counter

  /** `u64::to_be_bytes`. */
  function RustCounter(counter: nat): seq<nat> {
    Digits(256, counter, 8)
  }

  /** Two `setUint32` calls, which keep the low 32 bits of what they are given. */
  function JsCounter(counter: nat): seq<nat> {
    Digits(256, counter / 0x1_0000_0000 % 0x1_0000_0000, 4) + Digits(256, counter % 0x1_0000_0000, 4)
  }

  lemma DigitStep(v: nat, n: nat)
    ensures Digits(256, v, n + 1) == Digits(256, v / 256, n) + [v % 256]
  {
  }

  lemma {:induction false} DigitsSplit(v: nat, n: nat, k: nat)
    ensures Digits(256, v, n + k) == Digits(256, v / Pow(256, k), n) + Digits(256, v, k)
    decreases k
  {
    if k == 0 {
      assert Digits(256, v, n) + [] == Digits(256, v, n);
    } else {
      DigitsSplit(v / 256, n, k - 1);
      QuotientTwice(v, 256, Pow(256, k - 1));
      DigitStep(v, n + k - 1);
      DigitStep(v, k - 1);
    }
  }

  lemma QuotientTwice(v: nat, a: nat, b: nat)
    requires a > 0 && b > 0
    ensures a * b > 0 && v / a / b == v / (a * b)
  {
    var q, r := v / a, v % a;
    QuotientRemainder(v, a);
    QuotientRemainder(q, b);
    NestedRemainder(q % b, b, r, a);
    var low := q % b * a + r;
    assert v == q / b * (a * b) + low by {
      Regroup(q / b, b, q % b, a, r);
    }
    DivMod(q / b, a * b, low);
  }

  lemma NestedRemainder(s: nat, b: nat, r: nat, a: nat)
    requires s < b && r < a
    ensures s * a + r < a * b
  {
    MulMono(s + 1, b, a);
  }

  lemma Regroup(k: nat, b: nat, s: nat, a: nat, r: nat)
    ensures (k * b + s) * a + r == k * (a * b) + (s * a + r)
  {
  }

  lemma {:induction false} DigitsOfLow(v: nat, k: nat)
    ensures Digits(256, v % Pow(256, k), k) == Digits(256, v, k)
    decreases k
  {
    if k > 0 {
      LowDigits(v, Pow(256, k - 1));
      DigitsOfLow(v / 256, k - 1);
      DigitStep(v, k - 1);
      DigitStep(v % Pow(256, k), k - 1);
    }
  }

  lemma LowDigits(v: nat, p: nat)
    requires p > 0
    ensures v % (256 * p) % 256 == v % 256 && v % (256 * p) / 256 == v / 256 % p
  {
    var q := v / 256;
    QuotientRemainder(q, p);
    NestedRemainder(q % p, p, v % 256, 256);
    assert v == q / p * (256 * p) + (q % p * 256 + v % 256) by {
      Regroup(q / p, p, q % p, 256, v % 256);
    }
    DivMod(q / p, 256 * p, q % p * 256 + v % 256);
  }

  /** Both clients feed the MAC the same eight bytes. */
  lemma SameCounter(counter: nat)
    ensures JsCounter(counter) == RustCounter(counter)
  {
    Pow256Four();
    DigitsSplit(counter, 4, 4);
    DigitsOfLow(counter, 4);
    DigitsOfLow(counter / 0x1_0000_0000, 4);
  }

  lemma Pow256Eight()
    ensures Pow(256, 8) == 0x1_0000_0000_0000_0000
  {
    Pow256Four();
    PowSum(256, 4, 4);
  }

  /** They are the counter itself, big-endian, as section 5.1 of RFC 4226 has it. */
  lemma CounterBytes(counter: nat)
    requires counter < 0x1_0000_0000_0000_0000
    ensures |RustCounter(counter)| == 8 && Below(256, RustCounter(counter))
    ensures Value(256, RustCounter(counter)) == counter
  {
    Pow256Eight();
    ValueOfDigits(256, counter, 8);
  }

  // -------------------------------------------------------------- the window

  /** The library's keyed hash, for one secret and one algorithm. */
  type Mac = seq<nat> -> seq<nat>

  ghost predicate Hashes(mac: Mac) {
    forall msg: seq<nat> :: |mac(msg)| >= 20 && Below(256, mac(msg))
  }

  datatype TotpCode = TotpCode(code: string, secondsRemaining: nat)

  function CodeAt(mac: Mac, period: nat, digits: nat, now: nat): TotpCode
    requires period > 0 && Clamped(digits) && |mac(RustCounter(now / period))| >= 20
  {
    TotpCode(RustCode(mac(RustCounter(now / period)), digits), period - now % period)
  }

  lemma Window(now: nat, period: nat, k: nat)
    requires period > 0 && k <= period - now % period
    ensures (now + k) / period == (if k < period - now % period then now / period else now / period + 1)
    ensures 1 <= period - now % period <= period
  {
    QuotientRemainder(now, period);
    if k < period - now % period {
      DivMod(now / period, period, now % period + k);
    } else {
      assert (now / period + 1) * period == now / period * period + period;
      DivMod(now / period + 1, period, 0);
    }
  }

  /** The code stays for exactly the announced seconds; then the counter has moved on by one. */
  lemma CodeConstantInWindow(mac: Mac, period: nat, digits: nat, now: nat, k: nat)
    requires period > 0 && Clamped(digits) && Hashes(mac)
    requires k <= CodeAt(mac, period, digits, now).secondsRemaining
    ensures var c := CodeAt(mac, period, digits, now);
      && 1 <= c.secondsRemaining <= period
      && (k < c.secondsRemaining ==>
            CodeAt(mac, period, digits, now + k) == TotpCode(c.code, c.secondsRemaining - k))
      && (now + c.secondsRemaining) / period == now / period + 1
      && CodeAt(mac, period, digits, now + c.secondsRemaining).secondsRemaining == period
  {
    var rest := period - now % period;
    Window(now, period, k);
    Window(now, period, rest);
    RemainderInWindow(now, period, k);
    RemainderInWindow(now, period, rest);
  }

  lemma RemainderInWindow(now: nat, period: nat, k: nat)
    requires period > 0 && k <= period - now % period
    ensures (now + k) % period == (if k < period - now % period then now % period + k else 0)
  {
    Window(now, period, k);
    QuotientRemainder(now, period);
    QuotientRemainder(now + k, period);
    assert (now / period + 1) * period == now / period * period + period;
  }

  // ------------------------------------------------------- clamped parameters

  /** What reading a parameter as a floating-point number gives. */
  datatype Parsed = Missing | NotANumber | Infinite | Finite(value: real)

  /** `as u64` saturates. */
  function ToU64(n: real): nat
    requires n >= 0.0
  {
    if n.Floor > 0xFFFF_FFFF_FFFF_FFFF then 0xFFFF_FFFF_FFFF_FFFF else n.Floor
  }

  function RustClamp(raw: Parsed, low: nat, high: nat, fallback: nat): nat {
    if raw.Finite? && raw.value > 0.0 then
      var n := ToU64(raw.value);
      if n < low then low else if n > high then high else n
    else fallback
  }

  function JsClamp(raw: Parsed, low: nat, high: nat, fallback: nat): nat {
    if !raw.Finite? || raw.value <= 0.0 then fallback
    else
      var n := raw.value.Floor;
      var atLeast := if n > low then n else low;
      if atLeast < high then atLeast else high
  }

  /** Whatever number a parameter reads as, both clients settle on the same value inside the range. */
  lemma ClampsAgree(raw: Parsed, low: nat, high: nat, fallback: nat)
    requires low <= fallback <= high <= 0xFFFF_FFFF_FFFF_FFFF
    ensures RustClamp(raw, low, high, fallback) == JsClamp(raw, low, high, fallback)
    ensures low <= RustClamp(raw, low, high, fallback) <= high
    ensures raw.Finite? && low as real <= raw.value < (high + 1) as real && low > 0 ==>
      RustClamp(raw, low, high, fallback) == raw.value.Floor
  {
  }

  /** The numbers of digits the clamp lets through are four to ten; each of them is one somebody may ask for. */
  lemma DigitsAreClamped(raw: Parsed, digits: nat)
    ensures Clamped(RustClamp(raw, 4, 10, 6)) && Clamped(JsClamp(raw, 4, 10, 6))
    ensures Clamped(digits) <==> 4 <= digits <= 10
    ensures Clamped(digits) ==> RustClamp(Finite(digits as real), 4, 10, 6) == digits
    ensures raw.Missing? || raw.NotANumber? ==> RustClamp(raw, 4, 10, 6) == 6 && RustClamp(raw, 1, 3600, 30) == 30
    ensures 1 <= RustClamp(raw, 1, 3600, 30) <= 3600
  {
    ClampsAgree(raw, 4, 10, 6);
    ClampsAgree(raw, 1, 3600, 30);
    ClampsAgree(Finite(digits as real), 4, 10, 6);
  }

  // --------------------------------------------------- from text to the number

  /** The value of a digit in bases up to sixteen, or -1. */
  function DigitValue(c: char): int {
    if '0' <= c <= '9' then c as int - '0' as int
    else if 'a' <= c <= 'f' then 10 + (c as int - 'a' as int)
    else if 'A' <= c <= 'F' then 10 + (c as int - 'A' as int)
    else -1
  }

  function ReadDigits(base: nat, digits: string): Option<nat> {
    if digits == "" then None
    else
      var d, before := DigitValue(digits[|digits| - 1]), digits[..|digits| - 1];
      if d < 0 || d >= base then None
      else if before == "" then Some(d)
      else
        var v := ReadDigits(base, before);
        if v.Some? then Some(v.value * base + d) else None
  }

  /** `0x`, `0o` and `0b` literals, which only JavaScript's `Number` knows. */
  function RadixValue(text: string): Option<nat> {
    if |text| <= 2 || text[0] != '0' then None
    else if text[1] in "xX" then ReadDigits(16, text[2..])
    else if text[1] in "oO" then ReadDigits(8, text[2..])
    else if text[1] in "bB" then ReadDigits(2, text[2..])
    else None
  }

  lemma SmallTexts()
    ensures "0x1F"[2..] == "1F" && "0X1f"[2..] == "1f" && "0xA"[2..] == "A" && "0xa"[2..] == "a"
    ensures "0xF"[2..] == "F" && "0xf"[2..] == "f" && "0o17"[2..] == "17" && "0O17"[2..] == "17"
    ensures "0b11"[2..] == "11" && "0B11"[2..] == "11" && "0b2"[2..] == "2" && "0o8"[2..] == "8"
    ensures "1F"[..1] == "1" && "1f"[..1] == "1" && "17"[..1] == "1" && "11"[..1] == "1"
  {
  }

  lemma DigitsRead()
    ensures ReadDigits(16, "1F") == ReadDigits(16, "1f") == Some(31)
    ensures ReadDigits(16, "A") == ReadDigits(16, "a") == Some(10)
    ensures ReadDigits(16, "F") == ReadDigits(16, "f") == Some(15)
    ensures ReadDigits(8, "17") == Some(15) && ReadDigits(2, "11") == Some(3)
    ensures ReadDigits(2, "2") == None && ReadDigits(8, "8") == None
  {
    SmallTexts();
    assert ReadDigits(16, "1") == ReadDigits(8, "1") == ReadDigits(2, "1") == Some(1) by {
      assert "1"[..0] == "";
    }
  }

  /** One number in each base, and texts that are none. */
  lemma RadixLiterals()
    ensures RadixValue("0xA") == RadixValue("0xa") == Some(10) && RadixValue("0xF") == RadixValue("0xf") == Some(15)
    ensures RadixValue("0x1F") == Some(31) && RadixValue("0o17") == Some(15) && RadixValue("0b11") == Some(3)
    ensures RadixValue("0X1f") == Some(31) && RadixValue("0O17") == Some(15) && RadixValue("0B11") == Some(3)
    ensures RadixValue("0x") == None && RadixValue("0b2") == None && RadixValue("0o8") == None
    ensures RadixValue("1x1") == None && RadixValue("010") == None
  {
    SmallTexts();
    DigitsRead();
    hide ReadDigits;
  }

  /** What both languages make of a decimal literal; of any other text, not a number. */
  type Decimals = string -> Parsed

  /** A decimal literal is not empty, has no white space at its ends and is not a radix literal. */
  ghost predicate Strict(decimals: Decimals) {
    forall text: string :: text == "" || Trim(text, JsSpaces) != text || RadixValue(text).Some? ==>
      !decimals(text).Finite?
  }

  /** `parse::<f64>()`. */
  function RustNumber(raw: Option<string>, decimals: Decimals): Parsed {
    if raw.None? then Missing else decimals(raw.value)
  }

  /** `Number(raw)`: null and blank texts are zero. */
  function JsNumber(raw: Option<string>, decimals: Decimals): Parsed {
    if raw.None? then Finite(0.0)
    else
      var core := Trim(raw.value, JsSpaces);
      if core == "" then Finite(0.0)
      else if RadixValue(core).Some? then Finite(RadixValue(core).value as real)
      else decimals(core)
  }

  /** The text means the same number to both, where it means one at all. */
  predicate ReadAlike(raw: Option<string>) {
    raw.Some? ==> Trim(raw.value, JsSpaces) == raw.value && RadixValue(raw.value).None?
  }

  /**
   * From the same parameter text both clients settle on the same value exactly when the text has no white space around
   * it and is no radix literal, or TypeScript falls back as well.
   */
  lemma ClampsOfTextExactly(raw: Option<string>, decimals: Decimals, low: nat, high: nat, fallback: nat)
    requires Strict(decimals) && low <= fallback <= high <= 0xFFFF_FFFF_FFFF_FFFF
    ensures var rust := RustClamp(RustNumber(raw, decimals), low, high, fallback);
      var js := JsClamp(JsNumber(raw, decimals), low, high, fallback);
      && (rust == js <==> ReadAlike(raw) || js == fallback)
      && (!ReadAlike(raw) ==> rust == fallback)
  {
    hide Trim, RadixValue;
    if raw.Some? && ReadAlike(raw) {
      ClampsAgree(decimals(raw.value), low, high, fallback);
    }
  }

  /** `digits=0x8` and `digits= 8 ` are eight digits in TypeScript and six in Rust. */
  lemma EightDigitsOrSix(decimals: Decimals)
    requires Strict(decimals) && decimals("8") == Finite(8.0)
    ensures RustClamp(RustNumber(Some("0x8"), decimals), 4, 10, 6) == 6
    ensures JsClamp(JsNumber(Some("0x8"), decimals), 4, 10, 6) == 8
    ensures RustClamp(RustNumber(Some(" 8 "), decimals), 4, 10, 6) == 6
    ensures JsClamp(JsNumber(Some(" 8 "), decimals), 4, 10, 6) == 8
  {
    TrimmedEights();
    hide Trim;
    assert "0x8"[2..] == "8" && "8"[..0] == "";
    assert RadixValue("0x8") == Some(8);
    assert !decimals("0x8").Finite? && !decimals(" 8 ").Finite?;
  }

  lemma TrimmedEights()
    ensures Trim("0x8", JsSpaces) == "0x8" && Trim(" 8 ", JsSpaces) == "8"
  {
  }
}
