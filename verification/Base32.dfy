/**
 * Three base32 decoders: `decode_base32` of src-tauri/core/src/totp.rs, `decodeBase32` of src/lib/totp.ts and
 * `base32_decode` of src-tauri/examples/e2e_seed.rs, against the encoding of section 6 of RFC 4648.
 */
module Base32 {
  import opened Numeral
  import opened Text

  datatype Result = Ok(bytes: seq<nat>) | Invalid(ch: char)

  /** The alphabet: `A` to `Z`, then `2` to `7`. */
  function Letter(k: nat): char
    requires k < 32
  {
    if k < 26 then 'A' + k as char else '2' + (k - 26) as char
  }

  /** The position of a character in the alphabet, negative for none. */
  function Symbol(c: char): (k: int)
    ensures k < 32
  {
    if 'A' <= c <= 'Z' then c as int - 'A' as int
    else if '2' <= c <= '7' then 26 + (c as int - '2' as int)
    else -1
  }

  lemma SymbolIsPosition(c: char, k: nat)
    requires k < 32
    ensures Letter(k) == c <==> Symbol(c) == k
  {
  }

  predicate InAlphabet(text: string) {
    forall i :: 0 <= i < |text| ==> Symbol(text[i]) >= 0
  }

  function Symbols(text: string): (ks: seq<nat>)
    requires InAlphabet(text)
    ensures |ks| == |text|
    ensures forall i :: 0 <= i < |text| ==> ks[i] == Symbol(text[i])
  {
    if text == "" then [] else Symbols(text[..|text| - 1]) + [Symbol(text[|text| - 1])]
  }

  // ------------------------------------------------------------------- bits

  /** `word >> n`: the sign is copied when the word is negative. */
  function Shr(word: int, n: nat): (w: int)
    ensures word >= 0 ==> w >= 0
    decreases n
  {
    if n == 0 then word else Shr(word / 2, n - 1)
  }

  /** `x << n`, without a word size. */
  function Shl(x: int, n: nat): int
    decreases n
  {
    if n == 0 then x else 2 * Shl(x, n - 1)
  }

  /** `word & ((1 << n) - 1)`. */
  function Mask(word: int, n: nat): nat
    decreases n
  {
    if n == 0 then 0 else word % 2 + 2 * Mask(word / 2, n - 1)
  }

  /** The byte a decoder cuts out: `(word >> n) & 0xff`. */
  function Cut(word: int, n: nat): nat {
    Shr(word, n) % 256
  }

  lemma {:induction false} ShrTwice(x: int, a: nat, b: nat)
    ensures Shr(x, a + b) == Shr(Shr(x, a), b)
    decreases a
  {
    if a > 0 {
      ShrTwice(x / 2, a - 1, b);
    }
  }

  lemma {:induction false} ShlTwice(x: int, a: nat, b: nat)
    ensures Shl(x, a + b) == Shl(Shl(x, a), b)
  {
    if b > 0 {
      ShlTwice(x, a, b - 1);
    }
  }

  lemma Shl8(x: int)
    ensures Shl(x, 8) == 256 * x
  {
    ShlTwice(x, 4, 4);
    ShlTwice(x, 2, 2);
    ShlTwice(Shl(x, 4), 2, 2);
    assert Shl(x, 2) == 4 * x && Shl(Shl(x, 2), 2) == 4 * Shl(x, 2);
    assert Shl(Shl(x, 4), 2) == 4 * Shl(x, 4);
    assert Shl(Shl(Shl(x, 4), 2), 2) == 4 * Shl(Shl(x, 4), 2);
  }

  lemma Shr8(x: int)
    ensures Shr(x, 8) == x / 256
  {
    ShrTwice(x, 4, 4);
    ShrTwice(x, 2, 2);
    ShrTwice(x / 16, 2, 2);
    assert Shr(x, 2) == x / 4 && Shr(x / 4, 2) == x / 16;
    assert Shr(x / 16, 2) == x / 64 && Shr(x / 64, 2) == x / 256;
  }

  lemma Shr5(v: int, k: nat)
    requires k < 32
    ensures Shr(32 * v + k, 5) == v
  {
    ShrTwice(32 * v + k, 2, 3);
    ShrTwice(8 * v + k / 4, 2, 1);
    assert Shr(32 * v + k, 2) == 8 * v + k / 4;
    assert Shr(8 * v + k / 4, 2) == 2 * v + k / 16;
    assert Shr(2 * v + k / 16, 1) == v;
  }

  /** Bits at and above position `m` stay at and above position `m - n` when a word is shifted right by `n`. */
  lemma {:induction false} HighBitsStayHigh(y: int, h: int, m: nat, n: nat)
    requires n <= m
    ensures Shr(y + Shl(h, m), n) == Shr(y, n) + Shl(h, m - n)
    ensures Mask(y + Shl(h, m), n) == Mask(y, n)
    decreases n
  {
    if n > 0 {
      HighBitsStayHigh(y / 2, h, m - 1, n - 1);
      assert (y + Shl(h, m)) / 2 == y / 2 + Shl(h, m - 1);
    }
  }

  lemma CutIgnoresHighBits(y: int, h: int, m: nat, n: nat)
    requires n + 8 <= m
    ensures Cut(y + Shl(h, m), n) == Cut(y, n)
  {
    hide Shr, Shl, Mask;
    HighBitsStayHigh(y, h, m, n);
    ShlTwice(h, m - n - 8, 8);
    Shl8(Shl(h, m - n - 8));
  }

  lemma {:induction false} HighAndLow(x: int, n: nat)
    ensures x == Mask(x, n) + Shl(Shr(x, n), n)
    decreases n
  {
    if n > 0 {
      HighAndLow(x / 2, n - 1);
    }
  }

  /** The whole bytes at the front of the bit string of the symbols, five bits each; the bits left over are dropped. */
  function Bytes(ks: seq<nat>): (bytes: seq<nat>)
    ensures |bytes| == 5 * |ks| / 8
  {
    Digits(256, Shr(Value(32, ks), 5 * |ks| % 8), 5 * |ks| / 8)
  }

  function FirstBad(text: string): (c: char)
    requires !InAlphabet(text)
    ensures Symbol(c) < 0
  {
    if Symbol(text[0]) < 0 then text[0] else FirstBad(text[1..])
  }

  /** What a decoder makes of its cleaned text. */
  function Decoded(text: string): Result {
    if InAlphabet(text) then Ok(Bytes(Symbols(text))) else Invalid(FirstBad(text))
  }

  lemma {:induction false} FirstBadAt(good: string, c: char, rest: string)
    requires InAlphabet(good) && Symbol(c) < 0
    ensures Decoded(good + [c] + rest) == Invalid(c)
  {
    var text := good + [c] + rest;
    assert Symbol(text[|good|]) < 0;
    if good != "" {
      FirstBadAt(good[1..], c, rest);
      assert text[1..] == good[1..] + [c] + rest;
      assert Symbol(good[0]) >= 0 && text[0] == good[0];
    }
  }

  // -------------------------------------------------------------- the bit accumulator

  /** A fifth of a byte more: either it only widens the remainder, or it completes exactly one byte. */
  lemma FiveMore(v: nat, k: nat, r: nat)
    requires k < 32 && r < 8
    ensures r < 3 ==> Shr(32 * v + k, r + 5) == Shr(v, r)
    ensures r >= 3 ==> Shr(32 * v + k, r - 3) / 256 == Shr(v, r)
  {
    Shr5(v, k);
    hide Shr;
    ShrTwice(32 * v + k, 5, r);
    if r >= 3 {
      ShrTwice(32 * v + k, r - 3, 8);
      Shr8(Shr(32 * v + k, r - 3));
    }
  }

  lemma MoreBits(ks: seq<nat>, k: nat)
    requires k < 32
    ensures var r, ks' := 5 * |ks| % 8, ks + [k];
      if r < 3 then Bytes(ks') == Bytes(ks) && 5 * |ks'| % 8 == r + 5
      else Bytes(ks') == Bytes(ks) + [Cut(Value(32, ks'), r - 3)] && 5 * |ks'| % 8 == r - 3
  {
    ValueAppend(32, ks, k);
    FiveMore(Value(32, ks), k, 5 * |ks| % 8);
    hide Shr, Value;
    if 5 * |ks| % 8 >= 3 {
      assert 5 * |ks + [k]| / 8 == 5 * |ks| / 8 + 1;
    }
  }

  /** On 32-bit words, shifting left by five and or-ing in a symbol is a wrapping multiply and add. */
  lemma ShiftOrIsMultiplyAdd(v: bv32, k: bv32)
    requires k < 32
    ensures (v << 5) | k == v * 32 + k
  {
  }

  lemma WordIsShl(q: int)
    ensures Shl(q, 32) == 0x1_0000_0000 * q
  {
    ShlTwice(q, 8, 8);
    ShlTwice(q, 16, 16);
    Shl8(q);
    Shl8(Shl(q, 8));
    ShlTwice(Shl(q, 16), 8, 8);
    Shl8(Shl(q, 16));
    Shl8(Shl(Shl(q, 16), 8));
  }

  /** JavaScript's conversion of a bit pattern to a signed 32-bit number. */
  function ToInt32(v: int): int {
    var u := v % 0x1_0000_0000;
    if u >= 0x8000_0000 then u - 0x1_0000_0000 else u
  }

  /** It is the number in the signed range with the same low 32 bits. */
  lemma ToInt32Is(v: int)
    ensures -0x8000_0000 <= ToInt32(v) < 0x8000_0000
    ensures (ToInt32(v) - v) % 0x1_0000_0000 == 0
  {
  }

  /** A word that was wrapped to 32 bits, signed or not, still holds every bit a byte is cut from. */
  lemma WrappingKeepsByte(v: int, n: nat)
    requires n < 8
    ensures Cut(v % 0x1_0000_0000, n) == Cut(v, n) && Cut(ToInt32(v), n) == Cut(v, n)
  {
    var q := v / 0x1_0000_0000;
    WordIsShl(q);
    CutIgnoresHighBits(v % 0x1_0000_0000, q, 32, n);
    WordIsShl(-1);
    CutIgnoresHighBits(v % 0x1_0000_0000, -1, 32, n);
  }

  lemma UnsignedShiftIn(v: int, k: nat)
    requires k < 32
    ensures v % 0x1_0000_0000 * 32 % 0x1_0000_0000 + k == (32 * v + k) % 0x1_0000_0000
  {
    var u := v % 0x1_0000_0000;
    var high, low := u / 0x800_0000, u % 0x800_0000;
    assert u * 32 == 0x1_0000_0000 * high + 32 * low;
    assert 32 * v + k == 0x1_0000_0000 * (32 * (v / 0x1_0000_0000) + high) + 32 * low + k;
  }

  lemma SignedShiftIn(v: nat, k: nat)
    requires k < 32
    ensures ToInt32(ToInt32(v) * 32) + k == ToInt32(32 * v + k)
  {
    assert ToInt32(v) * 32 % 0x1_0000_0000 == 32 * v % 0x1_0000_0000;
  }

  // ------------------------------------------------------------------- cleaning

  function AsciiUpper(c: char): char {
    if 'a' <= c <= 'z' then c - 'a' + 'A' else c
  }

  function Uppercase(text: string): (u: string)
    ensures |u| == |text|
  {
    if text == "" then "" else Uppercase(text[..|text| - 1]) + [AsciiUpper(text[|text| - 1])]
  }

  /** What `decode_base32` looks at: no whitespace and no `=` anywhere, in upper case. */
  function RustCleaned(text: string): string {
    if text == "" then ""
    else
      var c, front := text[|text| - 1], RustCleaned(text[..|text| - 1]);
      if RustSpace(c) || c == '=' then front else front + [AsciiUpper(c)]
  }

  function DropPadding(text: string): string {
    if text != "" && text[|text| - 1] == '=' then DropPadding(text[..|text| - 1]) else text
  }

  function DropSpaces(text: string): string {
    if text == "" then ""
    else
      var c, front := text[|text| - 1], DropSpaces(text[..|text| - 1]);
      if JsSpace(c) then front else front + [c]
  }

  /** What `decodeBase32` looks at; `upper` is the host's `toUpperCase`. */
  function JsCleaned(text: string, upper: string -> string): string {
    upper(DropSpaces(DropPadding(text)))
  }

  /** What `base32_decode` looks at. */
  function SeedCleaned(text: string): string {
    Uppercase(DropPadding(text))
  }

  // ------------------------------------------------------------------- decoders

  function Prefix(text: string, i: nat): string
    requires i <= |text|
  {
    text[..i]
  }

  /** How a decoder keeps its accumulator: unsigned, signed, or cut down to the bits it still needs. */
  datatype Word = Unsigned | Signed | Masked

  /** What the accumulator holds when the symbols so far spell `v` and `bits` bits are left over. */
  function Held(word: Word, v: nat, bits: nat): int {
    match word case Unsigned => v % 0x1_0000_0000 case Signed => ToInt32(v) case Masked => Mask(v, bits)
  }

  datatype Scan = Good(bytes: seq<nat>, bits: nat, acc: int) | Bad(ch: char)

  /** Where a decoder stands after `text`. */
  function Scanned(word: Word, text: string): Scan {
    if InAlphabet(text) then
      var ks := Symbols(text);
      Good(Bytes(ks), 5 * |ks| % 8, Held(word, Value(32, ks), 5 * |ks| % 8))
    else Bad(FirstBad(text))
  }

  /** `acc << 5` on an unsigned and on a signed 32-bit word. */
  function Unsigned5(acc: int): nat {
    acc * 32 % 0x1_0000_0000
  }

  function Signed5(acc: int): int {
    ToInt32(acc * 32)
  }

  lemma FedIsHeld(word: Word, v: nat, k: nat, bits: nat)
    requires k < 32 && bits < 8
    ensures Held(word, 32 * v + k, bits + 5)
      == (if word.Signed? then Signed5(Held(word, v, bits)) + k else Unsigned5(Held(word, v, bits)) + k)
  {
    UnsignedShiftIn(v, k);
    SignedShiftIn(v, k);
    MaskedShiftIn(v, k, bits);
    hide ToInt32, Mask;
  }

  lemma HeldKeepsByte(word: Word, v: nat, bits: nat)
    requires 8 <= bits < 13
    ensures Cut(Held(word, v, bits), bits - 8) == Cut(v, bits - 8)
    ensures word.Masked? ==> Mask(Held(word, v, bits), bits - 8) == Held(word, v, bits - 8)
  {
    hide Cut, Mask, ToInt32;
    if word.Masked? {
      MaskKeepsLow(v, bits, bits - 8);
    } else {
      WrappingKeepsByte(v, bits - 8);
    }
  }

  lemma SymbolsAppend(text: string, ch: char)
    requires InAlphabet(text) && Symbol(ch) >= 0
    ensures InAlphabet(text + [ch]) && Symbols(text + [ch]) == Symbols(text) + [Symbol(ch)]
  {
    assert (text + [ch])[..|text|] == text;
  }

  /** One round of a decoder's loop. */
  lemma ScanSymbol(word: Word, text: string, ch: char, bytes: seq<nat>, bits: nat, acc: int)
    requires Scanned(word, text) == Good(bytes, bits, acc) && Symbol(ch) >= 0
    ensures var acc' := if word.Signed? then Signed5(acc) + Symbol(ch) else Unsigned5(acc) + Symbol(ch);
      Scanned(word, text + [ch]) == (
        if bits < 3 then Good(bytes, bits + 5, acc')
        else Good(bytes + [Cut(acc', bits - 3)], bits - 3, if word.Masked? then Mask(acc', bits - 3) else acc'))
  {
    hide *;
    ScanGood(word, text);
    var ks, k := Symbols(text), Symbol(ch);
    SymbolsAppend(text, ch);
    ScanGood(word, text + [ch]);
    ValueAppend(32, ks, k);
    MoreBits(ks, k);
    FedIsHeld(word, Value(32, ks), k, bits);
    if bits >= 3 {
      HeldKeepsByte(word, 32 * Value(32, ks) + k, bits + 5);
      HeldAgain(word, 32 * Value(32, ks) + k, bits - 3);
    }
  }

  lemma ScanGood(word: Word, text: string)
    ensures Scanned(word, text).Good? <==> InAlphabet(text)
    ensures InAlphabet(text) ==> var ks := Symbols(text);
      Scanned(word, text) == Good(Bytes(ks), 5 * |ks| % 8, Held(word, Value(32, ks), 5 * |ks| % 8))
  {
  }

  lemma HeldAgain(word: Word, v: nat, bits: nat)
    ensures !word.Masked? ==> Held(word, v, bits) == Held(word, v, bits + 8)
  {
  }

  lemma ScanStart(word: Word, text: string)
    requires text == ""
    ensures Scanned(word, text) == Good([], 0, 0)
  {
  }

  lemma ScanEnd(word: Word, text: string, bytes: seq<nat>, bits: nat, acc: int)
    requires Scanned(word, text) == Good(bytes, bits, acc)
    ensures Decoded(text) == Ok(bytes)
  {
  }

  lemma ScanBad(word: Word, text: string, ch: char, rest: string)
    requires Scanned(word, text).Good? && Symbol(ch) < 0
    ensures Decoded(text + [ch] + rest) == Invalid(ch)
  {
    FirstBadAt(text, ch, rest);
  }

  lemma RustCleanedNext(input: string, i: nat)
    requires i < |input|
    ensures RustCleaned(Prefix(input, i + 1)) ==
      if RustSpace(input[i]) || input[i] == '=' then RustCleaned(Prefix(input, i))
      else RustCleaned(Prefix(input, i)) + [AsciiUpper(input[i])]
  {
    assert input[..i + 1][..i] == input[..i];
  }

  lemma {:induction false} RustCleanedConcat(a: string, b: string)
    ensures RustCleaned(a + b) == RustCleaned(a) + RustCleaned(b)
    decreases |b|
  {
    if b == "" {
      assert a + b == a;
    } else {
      assert (a + b)[..|a + b| - 1] == a + b[..|b| - 1];
      RustCleanedConcat(a, b[..|b| - 1]);
    }
  }

  lemma PrefixAnd(text: string, i: nat)
    requires i <= |text|
    ensures text == Prefix(text, i) + text[i..]
  {
  }

  lemma RustCleanedNothing()
    ensures RustCleaned("") == ""
  {
  }

  lemma RustBad(input: string, i: nat)
    requires i < |input| && !RustSpace(input[i]) && input[i] != '=' && Symbol(AsciiUpper(input[i])) < 0
    requires Scanned(Unsigned, RustCleaned(Prefix(input, i))).Good?
    ensures Decoded(RustCleaned(input)) == Invalid(AsciiUpper(input[i]))
  {
    hide *;
    RustCleanedNext(input, i);
    RustCleanedConcat(Prefix(input, i + 1), input[i + 1..]);
    PrefixAnd(input, i + 1);
    ScanBad(Unsigned, RustCleaned(Prefix(input, i)), AsciiUpper(input[i]), RustCleaned(input[i + 1..]));
  }

  /** `decode_base32`: a 32-bit unsigned accumulator that is never masked. */
  method DecodeRust(input: string) returns (r: Result)
    ensures r == Decoded(RustCleaned(input))
  {
    hide *;
    var bytes: seq<nat>, bits: nat, value: nat := [], 0, 0;
    WholePrefix(input);
    RustCleanedNothing();
    ScanStart(Unsigned, RustCleaned(Prefix(input, 0)));
    for i := 0 to |input|
      invariant Scanned(Unsigned, RustCleaned(Prefix(input, i))) == Good(bytes, bits, value)
    {
      RustCleanedNext(input, i);
      if !RustSpace(input[i]) && input[i] != '=' {
        var ch := AsciiUpper(input[i]);
        var idx := Symbol(ch);
        if idx < 0 {
          RustBad(input, i);
          return Invalid(ch);
        }
        ScanSymbol(Unsigned, RustCleaned(Prefix(input, i)), ch, bytes, bits, value);
        value := Unsigned5(value) + idx;
        bits := bits + 5;
        if bits >= 8 {
          bits := bits - 8;
          bytes := bytes + [Cut(value, bits)];
        }
      }
    }
    ScanEnd(Unsigned, RustCleaned(input), bytes, bits, value);
    r := Ok(bytes);
  }

  lemma WholePrefix(text: string)
    ensures Prefix(text, 0) == "" && Prefix(text, |text|) == text
  {
  }

  lemma PrefixNext(text: string, i: nat)
    requires i < |text|
    ensures Prefix(text, i + 1) == Prefix(text, i) + [text[i]]
  {
  }

  lemma PrefixBad(word: Word, text: string, i: nat)
    requires i < |text| && Symbol(text[i]) < 0 && Scanned(word, Prefix(text, i)).Good?
    ensures Decoded(text) == Invalid(text[i])
  {
    hide *;
    PrefixNext(text, i);
    PrefixAnd(text, i + 1);
    ScanBad(word, Prefix(text, i), text[i], text[i + 1..]);
  }

  /** The loop of `decodeBase32`: a signed 32-bit accumulator, never masked, over text that is already clean. */
  method DecodeJs(input: string, upper: string -> string) returns (r: Result)
    ensures r == Decoded(JsCleaned(input, upper))
  {
    hide *;
    var cleaned := JsCleaned(input, upper);
    var bytes: seq<nat>, bits: nat, value: int := [], 0, 0;
    WholePrefix(cleaned);
    ScanStart(Signed, Prefix(cleaned, 0));
    for i := 0 to |cleaned|
      invariant Scanned(Signed, Prefix(cleaned, i)) == Good(bytes, bits, value)
    {
      PrefixNext(cleaned, i);
      var ch := cleaned[i];
      var idx := Symbol(ch);
      if idx < 0 {
        PrefixBad(Signed, cleaned, i);
        return Invalid(ch);
      }
      ScanSymbol(Signed, Prefix(cleaned, i), ch, bytes, bits, value);
      value := Signed5(value) + idx;
      bits := bits + 5;
      if bits >= 8 {
        bits := bits - 8;
        bytes := bytes + [Cut(value, bits)];
      }
    }
    ScanEnd(Signed, cleaned, bytes, bits, value);
    r := Ok(bytes);
  }

  /** `base32_decode`: keeps only the bits it still needs. */
  method DecodeSeed(input: string) returns (r: Result)
    ensures r == Decoded(SeedCleaned(input))
  {
    hide *;
    var trimmed := SeedCleaned(input);
    var out: seq<nat>, bits: nat, buf: nat := [], 0, 0;
    WholePrefix(trimmed);
    ScanStart(Masked, Prefix(trimmed, 0));
    for i := 0 to |trimmed|
      invariant Scanned(Masked, Prefix(trimmed, i)) == Good(out, bits, buf)
    {
      PrefixNext(trimmed, i);
      var c := trimmed[i];
      var v := Symbol(c);
      if v < 0 {
        PrefixBad(Masked, trimmed, i);
        return Invalid(c);
      }
      ScanSymbol(Masked, Prefix(trimmed, i), c, out, bits, buf);
      buf := Unsigned5(buf) + v;
      bits := bits + 5;
      if bits >= 8 {
        bits := bits - 8;
        out := out + [Cut(buf, bits)];
        buf := Mask(buf, bits);
      }
    }
    ScanEnd(Masked, trimmed, out, bits, buf);
    r := Ok(out);
  }

  lemma {:induction false} MaskBelow(x: int, n: nat)
    ensures Mask(x, n) < Shl(1, n)
    decreases n
  {
    if n > 0 {
      MaskBelow(x / 2, n - 1);
    }
  }

  lemma {:induction false} ShlOneMonotone(a: nat, b: nat)
    requires a <= b
    ensures 0 < Shl(1, a) <= Shl(1, b)
    decreases b
  {
    if a < b {
      ShlOneMonotone(a, b - 1);
    } else if a > 0 {
      ShlOneMonotone(a - 1, a - 1);
    }
  }

  lemma MaskedShiftIn(v: int, k: nat, r: nat)
    requires k < 32 && r < 8
    ensures Mask(v, r) * 32 % 0x1_0000_0000 + k == Mask(32 * v + k, r + 5)
  {
    MaskBelow(v, r);
    ShlOneMonotone(r, 8);
    Shl8(1);
    MaskFive(v, k, r);
    hide Mask, Shl, Cut;
  }

  lemma MaskKeepsLow(x: int, m: nat, n: nat)
    requires n + 8 <= m
    ensures Cut(Mask(x, m), n) == Cut(x, n) && Mask(Mask(x, m), n) == Mask(x, n)
  {
    hide Mask, Shl, Shr, Cut;
    HighAndLow(x, m);
    CutIgnoresHighBits(Mask(x, m), Shr(x, m), m, n);
    HighBitsStayHigh(Mask(x, m), Shr(x, m), m, n);
  }

  lemma MaskOne(v: int, k: nat, n: nat)
    requires k < 2
    ensures Mask(2 * v + k, n + 1) == 2 * Mask(v, n) + k
  {
    assert (2 * v + k) / 2 == v;
  }

  lemma MaskFive(v: int, k: nat, r: nat)
    requires k < 32
    ensures Mask(32 * v + k, r + 5) == 32 * Mask(v, r) + k
  {
    hide Mask;
    MaskOne(v, k / 16, r);
    MaskOne(2 * v + k / 16, k / 8 % 2, r + 1);
    MaskOne(4 * v + k / 8, k / 4 % 2, r + 2);
    MaskOne(8 * v + k / 4, k / 2 % 2, r + 3);
    MaskOne(16 * v + k / 2, k % 2, r + 4);
    assert 2 * (2 * v + k / 16) + k / 8 % 2 == 4 * v + k / 8;
    assert 2 * (4 * v + k / 8) + k / 4 % 2 == 8 * v + k / 4;
    assert 2 * (8 * v + k / 4) + k / 2 % 2 == 16 * v + k / 2;
    assert 2 * (16 * v + k / 2) + k % 2 == 32 * v + k;
  }

  // ------------------------------------------------- where the three decoders agree

  predicate Ascii(text: string) {
    forall i :: 0 <= i < |text| ==> text[i] as int < 128
  }

  /** What a Unicode `toUpperCase` does on plain ASCII. */
  ghost predicate UppercasesAscii(upper: string -> string) {
    forall text: string :: Ascii(text) ==> upper(text) == Uppercase(text)
  }

  /** The host's `toUpperCase`, character by character; it may make several of one, or a letter of something else. */
  type CaseMap = char -> string

  const NEXT_LINE: char := '\U{0085}'

  ghost predicate Uppercases(up: CaseMap) {
    (forall c: char :: c as int < 128 ==> up(c) == [AsciiUpper(c)]) && up(NEXT_LINE) == [NEXT_LINE]
  }

  function Uppered(text: string, up: CaseMap): string {
    if text == "" then "" else Uppered(text[..|text| - 1], up) + up(text[|text| - 1])
  }

  function UpperFn(up: CaseMap): string -> string {
    (text: string) => Uppered(text, up)
  }

  predicate OkForRust(c: char) {
    RustSpace(c) || c == '=' || Symbol(AsciiUpper(c)) >= 0
  }

  predicate OkForJs(c: char, up: CaseMap) {
    JsSpace(c) || InAlphabet(up(c))
  }

  lemma InAlphabetConcat(a: string, b: string)
    ensures InAlphabet(a + b) <==> InAlphabet(a) && InAlphabet(b)
  {
    if InAlphabet(a + b) {
      forall i | 0 <= i < |a| ensures Symbol(a[i]) >= 0 {
        assert (a + b)[i] == a[i];
      }
      forall i | 0 <= i < |b| ensures Symbol(b[i]) >= 0 {
        assert (a + b)[|a| + i] == b[i];
      }
    }
  }

  lemma InAlphabetOne(c: char)
    ensures InAlphabet([c]) <==> Symbol(c) >= 0
  {
    assert [c][0] == c;
  }

  lemma UpperedLast(text: string, c: char, up: CaseMap)
    ensures Uppered(text + [c], up) == Uppered(text, up) + up(c)
  {
    assert (text + [c])[..|text|] == text;
  }

  ghost predicate Every(text: string, ok: char -> bool) {
    forall c :: c in text ==> ok(c)
  }

  lemma EveryLast(text: string, ok: char -> bool)
    requires text != ""
    ensures Every(text, ok) <==> Every(text[..|text| - 1], ok) && ok(text[|text| - 1])
  {
    var front, last := text[..|text| - 1], text[|text| - 1];
    assert text == front + [last];
    if Every(text, ok) {
      forall c | c in front ensures ok(c) {
        assert c in text;
      }
    }
  }

  function JsReader(up: CaseMap): char -> bool {
    c => OkForJs(c, up)
  }

  predicate OkForSeed(c: char) {
    Symbol(AsciiUpper(c)) >= 0
  }

  lemma {:induction false} RustReads(text: string)
    ensures InAlphabet(RustCleaned(text)) <==> Every(text, OkForRust)
    decreases |text|
  {
    if text != "" {
      hide InAlphabet, Symbol, AsciiUpper, RustSpace, Every;
      var front, last := text[..|text| - 1], text[|text| - 1];
      RustReads(front);
      EveryLast(text, OkForRust);
      InAlphabetConcat(RustCleaned(front), [AsciiUpper(last)]);
      InAlphabetOne(AsciiUpper(last));
    }
  }

  lemma {:induction false} JsReads(text: string, up: CaseMap)
    ensures InAlphabet(Uppered(DropSpaces(text), up)) <==> Every(text, JsReader(up))
    decreases |text|
  {
    if text != "" {
      hide InAlphabet, JsSpace, Uppered, Every;
      var front, last := text[..|text| - 1], text[|text| - 1];
      JsReads(front, up);
      EveryLast(text, JsReader(up));
      UpperedLast(DropSpaces(front), last, up);
      InAlphabetConcat(Uppered(DropSpaces(front), up), up(last));
    }
  }

  lemma {:induction false} SeedReads(text: string)
    ensures InAlphabet(Uppercase(text)) <==> Every(text, OkForSeed)
    decreases |text|
  {
    if text != "" {
      hide InAlphabet, Symbol, AsciiUpper, Every;
      var front, last := text[..|text| - 1], text[|text| - 1];
      SeedReads(front);
      EveryLast(text, OkForSeed);
      InAlphabetConcat(Uppercase(front), [AsciiUpper(last)]);
      InAlphabetOne(AsciiUpper(last));
    }
  }

  /** What the two readers make of one character. */
  lemma OneCharacter(c: char, up: CaseMap)
    requires Uppercases(up)
    ensures Symbol(AsciiUpper(c)) >= 0 ==> c as int < 128 && !RustSpace(c) && !JsSpace(c) && c != '='
    ensures c as int < 128 ==> (InAlphabet(up(c)) <==> Symbol(AsciiUpper(c)) >= 0) && (JsSpace(c) <==> RustSpace(c))
    ensures c == NEXT_LINE ==> RustSpace(c) && !OkForJs(c, up)
    ensures c != NEXT_LINE && RustSpace(c) ==> JsSpace(c)
  {
    InAlphabetOne(AsciiUpper(c));
    InAlphabetOne(NEXT_LINE);
  }

  lemma OneAlike(c: char, up: CaseMap)
    requires Uppercases(up) && OkForRust(c) && OkForJs(c, up) && c != '='
    ensures (RustSpace(c) <==> JsSpace(c)) && (!RustSpace(c) ==> up(c) == [AsciiUpper(c)])
  {
    OneCharacter(c, up);
  }

  lemma {:induction false} ReadAlike(text: string, up: CaseMap)
    requires Uppercases(up) && '=' !in text && Every(text, OkForRust) && Every(text, JsReader(up))
    ensures RustCleaned(text) == Uppered(DropSpaces(text), up)
    decreases |text|
  {
    if text != "" {
      hide Uppercases, Every, OkForRust, OkForJs, AsciiUpper, RustSpace, JsSpace, Uppered;
      var front, last := text[..|text| - 1], text[|text| - 1];
      EveryLast(text, OkForRust);
      EveryLast(text, JsReader(up));
      ReadAlike(front, up);
      OneAlike(last, up);
      UpperedLast(DropSpaces(front), last, up);
    }
  }

  lemma OneForSeed(c: char, up: CaseMap)
    requires Uppercases(up) && OkForSeed(c)
    ensures !JsSpace(c) && up(c) == [AsciiUpper(c)]
  {
  }

  lemma {:induction false} SeedAlike(text: string, up: CaseMap)
    requires Uppercases(up) && Every(text, OkForSeed)
    ensures Uppercase(text) == Uppered(DropSpaces(text), up)
    decreases |text|
  {
    if text != "" {
      hide Uppercases, Every, OkForSeed, AsciiUpper, JsSpace, Uppered;
      var front, last := text[..|text| - 1], text[|text| - 1];
      EveryLast(text, OkForSeed);
      SeedAlike(front, up);
      OneForSeed(last, up);
      UpperedLast(DropSpaces(front), last, up);
    }
  }

  lemma {:induction false} PaddingCleansAway(text: string)
    ensures RustCleaned(text) == RustCleaned(DropPadding(text))
    ensures forall c :: c in DropPadding(text) ==> c in text
    ensures forall c :: c in text ==> c == '=' || c in DropPadding(text)
    decreases |text|
  {
    if text != "" && text[|text| - 1] == '=' {
      assert text == text[..|text| - 1] + ['='];
      PaddingCleansAway(text[..|text| - 1]);
    }
  }

  /**
   * On every text: where both decoders accept they give the same bytes. What Rust accepts TypeScript refuses exactly
   * for an `=` before the end or a NEXT LINE character; what TypeScript accepts Rust refuses exactly for a character
   * beyond ASCII that Rust does not count as white space, such as a dotless i, whose upper case is the letter I.
   */
  lemma JsAgreesWithRust(text: string, up: CaseMap)
    requires Uppercases(up)
    ensures var rust, js := Decoded(RustCleaned(text)), Decoded(JsCleaned(text, UpperFn(up)));
      && (rust.Ok? && js.Ok? ==> rust == js)
      && (rust.Ok? ==> (js.Ok? <==> '=' !in DropPadding(text) && NEXT_LINE !in text))
      && (js.Ok? ==> (rust.Ok? <==> forall c :: c in text && c as int >= 128 ==> RustSpace(c)))
  {
    var s := DropPadding(text);
    PaddingCleansAway(text);
    RustReads(text);
    JsReads(s, up);
    hide InAlphabet, Symbol, AsciiUpper, RustSpace, JsSpace, Uppercases;
    forall c | c in text
      ensures c != NEXT_LINE && OkForRust(c) && c != '=' ==> OkForJs(c, up)
      ensures c == '=' || c == NEXT_LINE ==> !OkForJs(c, up)
      ensures OkForJs(c, up) && c as int < 128 ==> OkForRust(c)
      ensures c as int >= 128 ==> (OkForRust(c) <==> RustSpace(c))
    {
      CharacterCases(c, up);
    }
    assert '=' in s ==> '=' in text;
    assert NEXT_LINE in text ==> NEXT_LINE in s;
    if Decoded(RustCleaned(text)).Ok? && Decoded(JsCleaned(text, UpperFn(up))).Ok? {
      ReadAlike(s, up);
    }
  }

  lemma CharacterCases(c: char, up: CaseMap)
    requires Uppercases(up)
    ensures c != NEXT_LINE && OkForRust(c) && c != '=' ==> OkForJs(c, up)
    ensures c == '=' || c == NEXT_LINE ==> !OkForJs(c, up)
    ensures OkForJs(c, up) && c as int < 128 ==> OkForRust(c)
    ensures c as int >= 128 ==> (OkForRust(c) <==> RustSpace(c))
  {
    OneCharacter(c, up);
  }

  /** The seeding tool accepts what TypeScript accepts, short of white space and non-ASCII, with the same bytes. */
  lemma SeedAgreesWithJs(text: string, up: CaseMap)
    requires Uppercases(up)
    ensures var seed, js := Decoded(SeedCleaned(text)), Decoded(JsCleaned(text, UpperFn(up)));
      && (seed.Ok? <==> js.Ok? && forall c :: c in text ==> c as int < 128 && !JsSpace(c))
      && (seed.Ok? ==> seed == js)
  {
    var s := DropPadding(text);
    PaddingCleansAway(text);
    SeedReads(s);
    JsReads(s, up);
    hide InAlphabet, Symbol, AsciiUpper, RustSpace, JsSpace, Uppercases;
    forall c | c in text
      ensures OkForSeed(c) <==> c as int < 128 && !JsSpace(c) && OkForJs(c, up)
      ensures c == '=' ==> c as int < 128 && !JsSpace(c)
    {
      OneCharacter(c, up);
      PlainEquals();
    }
    if Decoded(SeedCleaned(text)).Ok? {
      SeedAlike(s, up);
    }
  }

  lemma PlainEquals()
    ensures !JsSpace('=')
  {
  }

  /** `A=A`: Rust reads a byte where TypeScript reports a bad character. */
  lemma InnerPaddingDiffers(up: CaseMap)
    requires Uppercases(up)
    ensures Decoded(RustCleaned("A=A")).Ok? && !Decoded(JsCleaned("A=A", UpperFn(up))).Ok?
  {
    RustReads("A=A");
    assert OkForRust('A') && OkForRust('=');
    JsAgreesWithRust("A=A", up);
    assert DropPadding("A=A") == "A=A" && "A=A"[1] == '=';
  }

  /** A dotless i, read as an I: TypeScript decodes what Rust refuses. */
  lemma DotlessIDiffers(up: CaseMap)
    requires Uppercases(up) && up('\U{0131}') == "I"
    ensures Decoded(JsCleaned("\U{0131}", UpperFn(up))).Ok? && !Decoded(RustCleaned("\U{0131}")).Ok?
  {
    var text := "\U{0131}";
    assert DropPadding(text) == text && text[0] == '\U{0131}';
    JsReads(text, up);
    assert InAlphabet("I");
    JsAgreesWithRust(text, up);
    assert '\U{0131}' in text && !RustSpace('\U{0131}');
  }

  // ----------------------------------------------------------------- encoding

  function Padding(n: nat): (text: string)
    ensures |text| == n
  {
    if n == 0 then "" else Padding(n - 1) + "="
  }

  function Letters(ks: seq<nat>): (text: string)
    requires Below(32, ks)
    ensures |text| == |ks|
  {
    if ks == [] then "" else Letters(ks[..|ks| - 1]) + [Letter(ks[|ks| - 1])]
  }

  /** How many symbols `m` bytes take: the last may carry fill bits. */
  function SymbolCount(m: nat): (n: nat)
    ensures 8 * m <= 5 * n < 8 * m + 5
  {
    (8 * m + 4) / 5
  }

  /** Section 6 of RFC 4648: zero bits fill the last symbol, and `=` fills the last group of eight. */
  function Encoded(bytes: seq<nat>): string {
    var n := SymbolCount(|bytes|);
    EncodedSymbolsFit(bytes);
    Letters(EncodedSymbols(bytes)) + Padding((8 - n % 8) % 8)
  }

  function EncodedSymbols(bytes: seq<nat>): (ks: seq<nat>)
    ensures |ks| == SymbolCount(|bytes|)
  {
    var n := SymbolCount(|bytes|);
    ShlKeepsSign(Value(256, bytes), 5 * n - 8 * |bytes|);
    Digits(32, Shl(Value(256, bytes), 5 * n - 8 * |bytes|), n)
  }

  lemma {:induction false} ShlKeepsSign(x: nat, n: nat)
    ensures Shl(x, n) >= 0
  {
    if n > 0 {
      ShlKeepsSign(x, n - 1);
    }
  }

  lemma {:induction false} DigitsBelow(base: nat, v: nat, n: nat)
    requires base > 0
    ensures Below(base, Digits(base, v, n))
    decreases n
  {
    if n > 0 {
      DigitsBelow(base, Quot(v, base), n - 1);
      BelowAppend(base, Digits(base, Quot(v, base), n - 1), Rem(v, base));
    }
  }

  lemma EncodedSymbolsFit(bytes: seq<nat>)
    ensures Below(32, EncodedSymbols(bytes))
  {
    var n := SymbolCount(|bytes|);
    ShlKeepsSign(Value(256, bytes), 5 * n - 8 * |bytes|);
    DigitsBelow(32, Shl(Value(256, bytes), 5 * n - 8 * |bytes|), n);
  }

  lemma {:induction false} ShrUndoesShl(x: int, n: nat)
    ensures Shr(Shl(x, n), n) == x
  {
    if n > 0 {
      ShrUndoesShl(x, n - 1);
      assert Shl(x, n) / 2 == Shl(x, n - 1);
    }
  }

  lemma {:induction false} ShlIncreases(x: int, y: int, n: nat)
    requires x < y
    ensures Shl(x, n) < Shl(y, n)
    decreases n
  {
    if n > 0 {
      ShlIncreases(x, y, n - 1);
    }
  }

  lemma {:induction false} PowOf256(m: nat)
    ensures Pow(256, m) == Shl(1, 8 * m)
  {
    if m > 0 {
      PowOf256(m - 1);
      ShlTwice(1, 8 * (m - 1), 8);
      Shl8(Shl(1, 8 * (m - 1)));
    }
  }

  lemma Shl5(x: int)
    ensures Shl(x, 5) == 32 * x
  {
    ShlTwice(x, 2, 3);
    ShlTwice(Shl(x, 2), 2, 1);
    assert Shl(x, 2) == 4 * x && Shl(4 * x, 2) == 16 * x && Shl(16 * x, 1) == 32 * x;
  }

  lemma {:induction false} PowOf32(n: nat)
    ensures Pow(32, n) == Shl(1, 5 * n)
  {
    if n > 0 {
      PowOf32(n - 1);
      ShlTwice(1, 5 * (n - 1), 5);
      Shl5(Shl(1, 5 * (n - 1)));
    }
  }

  /** The filled bit string fits the symbols. */
  lemma FilledFits(v: nat, m: nat)
    requires v < Pow(256, m)
    ensures Shl(v, 5 * SymbolCount(m) - 8 * m) < Pow(32, SymbolCount(m))
  {
    var n := SymbolCount(m);
    hide Shl, Pow;
    PowOf256(m);
    PowOf32(n);
    ShlIncreases(v, Shl(1, 8 * m), 5 * n - 8 * m);
    ShlTwice(1, 8 * m, 5 * n - 8 * m);
  }

  /** Dropping the fill bits of the encoded symbols gives the bytes back. */
  lemma BytesOfEncodedSymbols(bytes: seq<nat>)
    requires Below(256, bytes)
    ensures Bytes(EncodedSymbols(bytes)) == bytes
  {
    var m, n := |bytes|, SymbolCount(|bytes|);
    var v, fill := Value(256, bytes), 5 * n - 8 * m;
    assert 5 * n % 8 == fill && 5 * n / 8 == m;
    DigitsOfValue(256, bytes);
    FilledFits(v, m);
    ShlKeepsSign(v, fill);
    hide Shl, Shr, Value, Digits, Pow;
    ValueOfDigits(32, Shl(v, fill), n);
    ShrUndoesShl(v, fill);
  }

  lemma {:induction false} LettersSpell(ks: seq<nat>)
    requires Below(32, ks)
    ensures InAlphabet(Letters(ks)) && Symbols(Letters(ks)) == ks
  {
    if ks != [] {
      var front, k := ks[..|ks| - 1], ks[|ks| - 1];
      LettersSpell(front);
      SymbolIsPosition(Letter(k), k);
      SymbolsAppend(Letters(front), Letter(k));
      assert ks == front + [k];
    }
  }

  lemma {:induction false} PaddingDrops(text: string, n: nat)
    requires text == "" || text[|text| - 1] != '='
    ensures DropPadding(text + Padding(n)) == text
    decreases n
  {
    if n == 0 {
      assert text + Padding(n) == text;
    } else {
      var whole := text + Padding(n);
      assert whole[..|whole| - 1] == text + Padding(n - 1);
      PaddingDrops(text, n - 1);
    }
  }

  lemma {:induction false} AlphabetIsClean(text: string)
    requires InAlphabet(text)
    ensures Uppercase(text) == text && DropSpaces(text) == text && RustCleaned(text) == text
    ensures Ascii(text) && '=' !in text
    decreases |text|
  {
    if text != "" {
      var front, c := text[..|text| - 1], text[|text| - 1];
      AlphabetIsClean(front);
      assert Symbol(c) >= 0;
      assert text == front + [c];
    }
  }

  /** Every decoder undoes the standard encoding of every byte string. */
  lemma DecodesEncoded(bytes: seq<nat>, upper: string -> string)
    requires Below(256, bytes) && UppercasesAscii(upper)
    ensures Decoded(RustCleaned(Encoded(bytes))) == Ok(bytes)
    ensures Decoded(JsCleaned(Encoded(bytes), upper)) == Ok(bytes)
    ensures Decoded(SeedCleaned(Encoded(bytes))) == Ok(bytes)
  {
    var ks := EncodedSymbols(bytes);
    EncodedSymbolsFit(bytes);
    BytesOfEncodedSymbols(bytes);
    LettersSpell(ks);
    var text := Letters(ks);
    AlphabetIsClean(text);
    PaddingDrops(text, (8 - SymbolCount(|bytes|) % 8) % 8);
    PaddingCleansAway(Encoded(bytes));
  }

  /** The character stands for symbol `k`, as a capital or a small letter. */
  predicate StandsFor(c: char, k: nat)
    requires k < 32
  {
    c == Letter(k) || (k < 26 && c == 'a' + k as char)
  }

  /** The text spells these symbols, in whatever case. */
  predicate Spells(text: string, ks: seq<nat>)
    requires Below(32, ks)
  {
    |text| == |ks| && forall i :: 0 <= i < |ks| ==> StandsFor(text[i], ks[i])
  }

  lemma StandsForClean(c: char, k: nat)
    requires k < 32 && StandsFor(c, k)
    ensures AsciiUpper(c) == Letter(k) && !RustSpace(c) && !JsSpace(c) && c != '=' && c as int < 128
  {
  }

  lemma {:induction false} SpelledIsClean(text: string, ks: seq<nat>)
    requires Below(32, ks) && Spells(text, ks)
    ensures RustCleaned(text) == Uppercase(text) == Letters(ks)
    ensures DropPadding(text) == DropSpaces(text) == text && Ascii(text)
    decreases |text|
  {
    if text != "" {
      var front, last, n: nat := text[..|text| - 1], text[|text| - 1], |text| - 1;
      StandsForClean(last, ks[n]);
      hide AsciiUpper, Letter, StandsFor, RustSpace, JsSpace;
      SpelledIsClean(front, ks[..n]);
      assert text == front + [last];
    }
  }

  /** Capitals and small letters decode alike: every decoder reads the bytes of the symbols a text spells. */
  lemma DecodesAnyCase(text: string, ks: seq<nat>, upper: string -> string)
    requires Below(32, ks) && Spells(text, ks) && UppercasesAscii(upper)
    ensures Decoded(RustCleaned(text)) == Ok(Bytes(ks))
    ensures Decoded(JsCleaned(text, upper)) == Ok(Bytes(ks))
    ensures Decoded(SeedCleaned(text)) == Ok(Bytes(ks))
  {
    SpelledIsClean(text, ks);
    LettersSpell(ks);
    hide Spells, Letters, Bytes, RustCleaned, DropPadding, DropSpaces, Uppercase;
  }
}
