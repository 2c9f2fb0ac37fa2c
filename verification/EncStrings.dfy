/**
 * The text and binary forms of a ciphertext in src-tauri/core/src/crypto.rs, and the length limit of src/lib/limits.ts.
 * Base64 is section 4 of RFC 4648; encryption itself is only known to pad as PKCS#7 does.
 */
module EncStrings {
  import opened Optional
  import opened Text

  // ------------------------------------------------------------------- base64

  function Letter64(k: nat): char
    requires k < 64
  {
    if k < 26 then 'A' + k as char
    else if k < 52 then 'a' + (k - 26) as char
    else if k < 62 then '0' + (k - 52) as char
    else if k == 62 then '+' else '/'
  }

  type Byte = b: nat | b < 256 witness 0

  /** One group of four characters for up to three bytes. */
  function Group(a: Byte, b: Option<Byte>, c: Option<Byte>): (s: string)
    ensures |s| == 4 && '|' !in s && '.' !in s
  {
    var y, z := if b.Some? then b.value as nat else 0, if c.Some? then c.value as nat else 0;
    [Letter64(a / 4), Letter64(a % 4 * 16 + y / 16),
     if b.None? then '=' else Letter64(y % 16 * 4 + z / 64), if c.None? then '=' else Letter64(z % 64)]
  }

  function Base64(bytes: seq<Byte>): (s: string)
    ensures '|' !in s && '.' !in s
  {
    if |bytes| == 0 then ""
    else if |bytes| == 1 then Group(bytes[0], None, None)
    else if |bytes| == 2 then Group(bytes[0], Some(bytes[1]), None)
    else Group(bytes[0], Some(bytes[1]), Some(bytes[2])) + Base64(bytes[3..])
  }

  /** Four characters for every three bytes begun. */
  lemma {:induction false} Base64Length(bytes: seq<Byte>)
    ensures |Base64(bytes)| == 4 * ((|bytes| + 2) / 3)
  {
    if |bytes| >= 3 {
      hide Letter64;
      Base64Length(bytes[3..]);
      assert (|bytes| + 2) / 3 == (|bytes[3..]| + 2) / 3 + 1;
    }
  }

  /** The value of a letter in table 1 of RFC 4648, or -1. */
  function Value64(c: char): (v: int)
    ensures -1 <= v < 64
  {
    if 'A' <= c <= 'Z' then c as int - 'A' as int
    else if 'a' <= c <= 'z' then c as int - 'a' as int + 26
    else if '0' <= c <= '9' then c as int - '0' as int + 52
    else if c == '+' then 62
    else if c == '/' then 63
    else -1
  }

  lemma ValueOfLetter(k: nat)
    requires k < 64
    ensures Value64(Letter64(k)) == k && Letter64(k) != '='
  {
  }

  /** The bytes of one group; what was padded is missing. */
  function GroupBytes(p: nat, q: nat, r: Option<nat>, t: Option<nat>): seq<Byte>
    requires p < 64 && q < 64 && (r.Some? ==> r.value < 64) && (t.Some? ==> t.value < 64 && r.Some?)
  {
    [p * 4 + q / 16] + (if r.Some? then [q % 16 * 16 + r.value / 4] else [])
    + if t.Some? then [r.value % 4 * 64 + t.value] else []
  }

  /** A decoder: groups of four letters, of which only the last may be padded. */
  function Bytes64(s: string): Option<seq<Byte>> {
    if s == "" then Some([])
    else if |s| < 4 then None
    else
      var p, q, r, t := Value64(s[0]), Value64(s[1]), Value64(s[2]), Value64(s[3]);
      if p < 0 || q < 0 then None
      else if |s| == 4 && s[2] == '=' && s[3] == '=' then Some(GroupBytes(p, q, None, None))
      else if r < 0 then None
      else if |s| == 4 && s[3] == '=' then Some(GroupBytes(p, q, Some(r), None))
      else if t < 0 then None
      else
        var rest := Bytes64(s[4..]);
        if rest.Some? then Some(GroupBytes(p, q, Some(r), Some(t)) + rest.value) else None
  }

  lemma GroupBack(a: Byte, b: Byte, c: Byte)
    ensures GroupBytes(a / 4, a % 4 * 16 + b / 16, Some(b % 16 * 4 + c / 64), Some(c % 64)) == [a, b, c]
    ensures GroupBytes(a / 4, a % 4 * 16 + b / 16, Some(b % 16 * 4), None) == [a, b]
    ensures GroupBytes(a / 4, a % 4 * 16, None, None) == [a]
  {
    BitsBack(a, b);
    BitsBack(b / 16, c);
    assert (a % 4 * 16 + b / 16) / 16 == a % 4 && (a % 4 * 16 + b / 16) % 16 == b / 16;
    assert (b % 16 * 4 + c / 64) / 4 == b % 16 && (b % 16 * 4 + c / 64) % 4 == c / 64;
    assert (b % 16 * 4) / 4 == b % 16 && (a % 4 * 16) / 16 == a % 4;
  }

  lemma BitsBack(a: nat, b: nat)
    ensures a / 4 * 4 + a % 4 == a && b / 64 * 64 + b % 64 == b
  {
  }

  lemma Letters(a: Byte, b: Byte)
    ensures Group(a, None, None) == [Letter64(a / 4), Letter64(a % 4 * 16)] + "=="
    ensures Group(a, Some(b), None)
      == [Letter64(a / 4), Letter64(a % 4 * 16 + b / 16), Letter64(b % 16 * 4)] + "="
  {
    hide Letter64;
  }

  lemma OneByteBack(a: Byte)
    ensures Bytes64(Group(a, None, None)) == Some([a])
  {
    GroupBack(a, 0, 0);
    Letters(a, 0);
    ValueOfLetter(a / 4);
    ValueOfLetter(a % 4 * 16);
    hide Letter64, Value64, GroupBytes, Group;
  }

  lemma TwoBytesBack(a: Byte, b: Byte)
    ensures Bytes64(Group(a, Some(b), None)) == Some([a, b])
  {
    GroupBack(a, b, 0);
    Letters(a, b);
    ValueOfLetter(a / 4);
    ValueOfLetter(a % 4 * 16 + b / 16);
    ValueOfLetter(b % 16 * 4);
    hide Letter64, Value64, GroupBytes, Group;
  }

  lemma FullGroupBack(a: Byte, b: Byte, c: Byte, rest: string)
    requires Bytes64(rest).Some?
    ensures Bytes64(Group(a, Some(b), Some(c)) + rest) == Some([a, b, c] + Bytes64(rest).value)
  {
    GroupBack(a, b, c);
    ValueOfLetter(a / 4);
    ValueOfLetter(a % 4 * 16 + b / 16);
    ValueOfLetter(b % 16 * 4 + c / 64);
    ValueOfLetter(c % 64);
    hide Letter64, Value64, GroupBytes;
    assert (Group(a, Some(b), Some(c)) + rest)[4..] == rest;
  }

  lemma NoBytes()
    ensures Base64([]) == "" && Bytes64("") == Some([])
  {
  }

  lemma FewBytes(a: Byte, b: Byte)
    ensures Base64([a]) == Group(a, None, None) && Base64([a, b]) == Group(a, Some(b), None)
  {
    hide Group;
  }

  lemma MoreBytes(bytes: seq<Byte>)
    requires |bytes| >= 3
    ensures Base64(bytes) == Group(bytes[0], Some(bytes[1]), Some(bytes[2])) + Base64(bytes[3..])
  {
    hide Group;
  }

  /** The text is the bytes': reading its letters by the table of the standard gives them back. */
  lemma {:induction false} Base64Back(bytes: seq<Byte>)
    ensures Bytes64(Base64(bytes)) == Some(bytes)
  {
    hide *;
    if |bytes| >= 3 {
      MoreBytes(bytes);
      Base64Back(bytes[3..]);
      FullGroupBack(bytes[0], bytes[1], bytes[2], Base64(bytes[3..]));
      assert bytes == [bytes[0], bytes[1], bytes[2]] + bytes[3..];
    } else if |bytes| == 2 {
      FewBytes(bytes[0], bytes[1]);
      TwoBytesBack(bytes[0], bytes[1]);
      assert bytes == [bytes[0], bytes[1]];
    } else if |bytes| == 1 {
      FewBytes(bytes[0], 0);
      OneByteBack(bytes[0]);
      assert bytes == [bytes[0]];
    } else {
      NoBytes();
      assert bytes == [];
    }
  }

  // -------------------------------------------------------------- the text form

  datatype EncString = Aes(iv: seq<Byte>, ciphertext: seq<Byte>, mac: seq<Byte>) | Rsa(ciphertext: seq<Byte>)

  datatype Parsed = Ok(e: EncString) | NoPrefix | BadParts | BadBase64 | BadLength | UnknownKind

  /** The end of `encrypt_bytes`. */
  function Print(iv: seq<Byte>, ciphertext: seq<Byte>, mac: seq<Byte>): string {
    "2." + (Base64(iv) + "|" + Base64(ciphertext) + "|" + Base64(mac))
  }

  /** The library's base64 decoder. */
  type Decoder = string -> Option<seq<Byte>>

  ghost predicate Inverts(decode: Decoder) {
    forall bytes: seq<Byte> :: decode(Base64(bytes)) == Some(bytes)
  }

  /** There is one. */
  lemma SomeDecoderInverts()
    ensures Inverts(Bytes64)
  {
    forall bytes: seq<Byte> ensures Bytes64(Base64(bytes)) == Some(bytes) {
      Base64Back(bytes);
    }
  }

  /** The text up to the first dot, and the text after it. */
  function SplitOnce(s: string): Option<(string, string)> {
    if s == "" then None
    else if s[0] == '.' then Some(("", s[1..]))
    else
      var rest := SplitOnce(s[1..]);
      if rest.Some? then Some(([s[0]] + rest.value.0, rest.value.1)) else None
  }

  /** `EncString::parse`. */
  function Parse(s: string, decode: Decoder): Parsed {
    var cut := SplitOnce(s);
    if cut.None? then NoPrefix
    else if cut.value.0 == "2" then ParseAes(Split(cut.value.1, '|'), decode)
    else if cut.value.0 == "4" then
      var ciphertext := decode(cut.value.1);
      if ciphertext.None? then BadBase64 else Ok(Rsa(ciphertext.value))
    else UnknownKind
  }

  function ParseAes(parts: seq<string>, decode: Decoder): Parsed {
    if |parts| != 3 then BadParts
    else
      var iv, ciphertext, mac := decode(parts[0]), decode(parts[1]), decode(parts[2]);
      if iv.None? || ciphertext.None? || mac.None? then BadBase64
      else if |iv.value| != 16 || |mac.value| != 32 then BadLength
      else Ok(Aes(iv.value, ciphertext.value, mac.value))
  }

  lemma SplitThree(a: string, b: string, c: string)
    requires '|' !in a && '|' !in b && '|' !in c
    ensures Split(a + "|" + b + "|" + c, '|') == [a, b, c]
  {
    SplitWhole(a, '|');
    SplitWhole(b, '|');
    SplitWhole(c, '|');
    SplitConcat(a, b, '|');
    SplitConcat(a + "|" + b, c, '|');
  }

  /** Parsing undoes printing, and refuses only vectors and tags of the wrong size. */
  lemma ParsePrinted(iv: seq<Byte>, ciphertext: seq<Byte>, mac: seq<Byte>, decode: Decoder)
    requires Inverts(decode)
    ensures Parse(Print(iv, ciphertext, mac), decode)
      == if |iv| == 16 && |mac| == 32 then Ok(Aes(iv, ciphertext, mac)) else BadLength
  {
    var s, body := Print(iv, ciphertext, mac), Base64(iv) + "|" + Base64(ciphertext) + "|" + Base64(mac);
    assert s[0] == '2' && s[1] == '.' && s[1..][1..] == body;
    assert SplitOnce(s[1..]) == Some(("", body));
    assert SplitOnce(s) == Some((['2'] + "", body));
    SplitThree(Base64(iv), Base64(ciphertext), Base64(mac));
  }

  lemma {:induction false} PrefixOf(s: string)
    requires SplitOnce(s).Some?
    ensures s == SplitOnce(s).value.0 + "." + SplitOnce(s).value.1
  {
    if s[0] != '.' {
      PrefixOf(s[1..]);
    }
  }

  /** Text that does not start like a ciphertext is never taken for one: a plain folder name fails to parse. */
  lemma PlainTextDoesNotParse(s: string, decode: Decoder)
    ensures Parse(s, decode).Ok? ==> |s| >= 2 && s[1] == '.' && (s[0] == '2' || s[0] == '4')
  {
    if SplitOnce(s).Some? {
      PrefixOf(s);
    }
  }

  // ------------------------------------------------------------ the binary form

  datatype Buffer = Parts(iv: seq<Byte>, mac: seq<Byte>, ciphertext: seq<Byte>) | TooShort | BadType

  /** The end of `encrypt_buffer`: type, vector, tag and ciphertext back to back. */
  method FillBuffer(iv: seq<Byte>, mac: seq<Byte>, ciphertext: seq<Byte>) returns (out: seq<Byte>)
    requires |iv| == 16 && |mac| == 32
    ensures |out| == 49 + |ciphertext|
    ensures TakeApart(out) == if ciphertext == [] then TooShort else Parts(iv, mac, ciphertext)
  {
    out := [2];
    out := out + iv;
    out := out + mac;
    out := out + ciphertext;
    assert out[1..17] == iv && out[17..49] == mac && out[49..] == ciphertext;
  }

  /** What `decrypt_buffer` feeds to the cipher. */
  function TakeApart(buffer: seq<Byte>): Buffer {
    if |buffer| <= 49 then TooShort
    else if buffer[0] != 2 then BadType
    else Parts(buffer[1..17], buffer[17..49], buffer[49..])
  }

  /** A buffer that can be taken apart has only one set of parts, and they are all of it. */
  lemma PartsAreTheBuffer(buffer: seq<Byte>)
    requires TakeApart(buffer).Parts?
    ensures var p := TakeApart(buffer); buffer == [2] + p.iv + p.mac + p.ciphertext && |p.iv| == 16 && |p.mac| == 32
  {
    assert buffer == buffer[..1] + buffer[1..17] + buffer[17..49] + buffer[49..];
  }

  // ---------------------------------------------------------------- the limit

  /** PKCS#7: one to sixteen bytes of padding, up to a multiple of sixteen. */
  ghost predicate PaddedTo(n: nat, m: nat) {
    m % 16 == 0 && n < m <= n + 16
  }

  function EncryptedLength(n: nat): nat {
    var ciphertext := n / 16 * 16 + 16;
    2 + 4 * ((16 + 2) / 3) + 1 + 4 * ((ciphertext + 2) / 3) + 1 + 4 * ((32 + 2) / 3)
  }

  /**
   * The number the user interface computes is the exact length of the string the engine writes, for every
   * plaintext.
   */
  lemma EncryptedLengthIsExact(n: nat, iv: seq<Byte>, ciphertext: seq<Byte>, mac: seq<Byte>)
    requires |iv| == 16 && |mac| == 32 && PaddedTo(n, |ciphertext|)
    ensures |Print(iv, ciphertext, mac)| == EncryptedLength(n)
  {
    Base64Length(iv);
    Base64Length(ciphertext);
    Base64Length(mac);
    PaddedLength(n, |ciphertext|);
    hide Base64, PaddedTo;
  }

  lemma PaddedLength(n: nat, m: nat)
    requires PaddedTo(n, m)
    ensures m == n / 16 * 16 + 16
  {
  }

  /** `exceedsEncryptedLimit`; `units` is the length in UTF-16 code units, `n` in UTF-8 bytes. */
  predicate Exceeds(units: nat, n: nat, limit: nat) {
    units > 0 && EncryptedLength(n) > limit
  }

  /** A text is accepted exactly if it is empty or the string the engine would write is no longer than the limit. */
  lemma AcceptedExactly(
    units: nat, n: nat, limit: nat, iv: seq<Byte>, ciphertext: seq<Byte>, mac: seq<Byte>)
    requires |iv| == 16 && |mac| == 32 && PaddedTo(n, |ciphertext|)
    ensures !Exceeds(units, n, limit) <==> units == 0 || |Print(iv, ciphertext, mac)| <= limit
  {
    EncryptedLengthIsExact(n, iv, ciphertext, mac);
    hide Print, EncryptedLength, PaddedTo;
  }

  lemma LongerNeverShorter(n: nat, m: nat)
    requires n <= m
    ensures EncryptedLength(n) <= EncryptedLength(m)
  {
    assert n / 16 <= m / 16;
  }

  /** At the default limit, exactly the texts of up to 7439 bytes are accepted. */
  lemma LargestAccepted(units: nat, n: nat)
    requires units == 0 <==> n == 0
    ensures !Exceeds(units, n, 10_000) <==> n <= 7439
  {
    if n <= 7439 {
      LongerNeverShorter(n, 7439);
    } else {
      LongerNeverShorter(7440, n);
    }
  }
}
