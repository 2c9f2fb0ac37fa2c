/**
 * The agent's wire format and connection loop: `SshReader`, `write_string`, `handle_list` and `serve` of
 * src-tauri/src/ssh_agent.rs.
 */
module SshWire {
  import opened Numeral
  import opened Optional

  type Bytes = seq<nat>

  // ------------------------------------------------------------------ writing

  /** `u32::to_be_bytes(n as u32)`: section 5 of RFC 4251, after the cast has kept the low 32 bits. */
  function WriteU32(n: nat): (r: Bytes)
    ensures |r| == 4
  {
    Digits(256, n % 0x1_0000_0000, 4)
  }

  /** `write_string` on an empty buffer. */
  function WriteString(s: Bytes): Bytes {
    WriteU32(|s|) + s
  }

  datatype Item = Number(n: nat) | String(bytes: Bytes)

  function WriteItem(item: Item): Bytes {
    match item case Number(n) => WriteU32(n) case String(s) => WriteString(s)
  }

  function WriteAll(items: seq<Item>): Bytes {
    if items == [] then [] else WriteItem(items[0]) + WriteAll(items[1..])
  }

  predicate Fits(item: Item) {
    match item case Number(n) => n < 0x1_0000_0000 case String(s) => |s| < 0x1_0000_0000
  }

  // ------------------------------------------------------------------ reading

  /** The number at `pos`, if four bytes are left. */
  function NumberAt(buf: Bytes, pos: nat): Option<nat> {
    if pos + 4 > |buf| then None else Some(Value(256, buf[pos..pos + 4]))
  }

  /**
   * What reading a string at `pos` gives, and where it leaves the position; a bad length still uses up its four
   * bytes.
   */
  function StringAt(buf: Bytes, pos: nat): (Option<Bytes>, nat) {
    var len := NumberAt(buf, pos);
    if len.None? then (None, pos)
    else if pos + 4 + len.value > |buf| then (None, pos + 4)
    else (Some(buf[pos + 4..pos + 4 + len.value]), pos + 4 + len.value)
  }

  class SshReader {
    const buf: Bytes
    var pos: nat

    ghost predicate Valid()
      reads this
    {
      pos <= |buf|
    }

    constructor (buf: Bytes)
      ensures this.buf == buf && pos == 0 && Valid()
    {
      this.buf, pos := buf, 0;
    }

    method ReadU32() returns (n: Option<nat>)
      requires Valid()
      modifies this
      ensures Valid() && n == NumberAt(buf, old(pos)) && pos == if n.Some? then old(pos) + 4 else old(pos)
    {
      if pos + 4 > |buf| {
        return None;
      }
      n := Some(Value(256, buf[pos..pos + 4]));
      pos := pos + 4;
    }

    method ReadString() returns (s: Option<Bytes>)
      requires Valid()
      modifies this
      ensures Valid() && (s, pos) == StringAt(buf, old(pos))
    {
      var len := ReadU32();
      if len.None? {
        return None;
      }
      if pos + len.value > |buf| {
        return None;
      }
      s := Some(buf[pos..pos + len.value]);
      pos := pos + len.value;
    }
  }

  lemma {:induction false} NumberBack(a: Bytes, n: nat, b: Bytes)
    ensures NumberAt(a + WriteU32(n) + b, |a|) == Some(n % 0x1_0000_0000)
  {
    var m := n % 0x1_0000_0000;
    Pow256Four();
    ValueOfDigits(256, m, 4);
    hide Value, Digits, Pow;
    assert (a + WriteU32(n) + b)[|a|..|a| + 4] == WriteU32(n);
  }

  /** A written string reads back, anywhere in a buffer, exactly when its length fits 32 bits. */
  lemma {:induction false} StringBack(a: Bytes, s: Bytes, b: Bytes)
    ensures StringAt(a + WriteString(s) + b, |a|) == (Some(s), |a| + 4 + |s|) <==> |s| < 0x1_0000_0000
  {
    var buf := a + WriteString(s) + b;
    NumberBack(a, |s|, s + b);
    hide NumberAt, WriteU32;
    assert buf == a + WriteU32(|s|) + (s + b);
    if |s| < 0x1_0000_0000 {
      assert buf[|a| + 4..|a| + 4 + |s|] == s;
    }
  }

  /** Reading items of given kinds one after the other. */
  function ReadAll(buf: Bytes, pos: nat, kinds: seq<Item>): Option<(seq<Item>, nat)>
    decreases |kinds|
  {
    if kinds == [] then Some(([], pos))
    else if kinds[0].Number? then
      var n := NumberAt(buf, pos);
      if n.None? then None
      else
        var rest := ReadAll(buf, pos + 4, kinds[1..]);
        if rest.None? then None else Some(([Number(n.value)] + rest.value.0, rest.value.1))
    else
      var (s, pos') := StringAt(buf, pos);
      if s.None? then None
      else
        var rest := ReadAll(buf, pos', kinds[1..]);
        if rest.None? then None else Some(([String(s.value)] + rest.value.0, rest.value.1))
  }

  lemma ReadAllNumber(buf: Bytes, pos: nat, n: nat, kinds: seq<Item>)
    requires NumberAt(buf, pos) == Some(n)
    ensures var rest := ReadAll(buf, pos + 4, kinds);
      ReadAll(buf, pos, [Number(n)] + kinds)
      == if rest.None? then None else Some(([Number(n)] + rest.value.0, rest.value.1))
  {
    assert ([Number(n)] + kinds)[1..] == kinds;
  }

  lemma ReadAllString(buf: Bytes, pos: nat, s: Bytes, next: nat, kinds: seq<Item>)
    requires StringAt(buf, pos) == (Some(s), next)
    ensures var rest := ReadAll(buf, next, kinds);
      ReadAll(buf, pos, [String(s)] + kinds)
      == if rest.None? then None else Some(([String(s)] + rest.value.0, rest.value.1))
  {
    assert ([String(s)] + kinds)[1..] == kinds;
  }

  predicate AllFit(items: seq<Item>) {
    forall i :: 0 <= i < |items| ==> Fits(items[i])
  }

  lemma WriteCons(item: Item, items: seq<Item>)
    ensures WriteAll([item] + items) == WriteItem(item) + WriteAll(items)
  {
    assert ([item] + items)[1..] == items;
  }

  lemma {:induction false} ItemReads(before: Bytes, item: Item, items: seq<Item>, after: Bytes)
    requires Fits(item)
    ensures var buf, next := before + WriteItem(item) + after, |before| + |WriteItem(item)|;
      ReadAll(buf, |before|, [item] + items)
      == if ReadAll(buf, next, items).None? then None
         else Some(([item] + ReadAll(buf, next, items).value.0, ReadAll(buf, next, items).value.1))
  {
    var buf := before + WriteItem(item) + after;
    match item
    case Number(n) =>
      NumberBack(before, n, after);
      hide WriteU32, NumberAt, StringAt;
      ReadAllNumber(buf, |before|, n, items);
    case String(s) =>
      StringBack(before, s, after);
      hide WriteU32, NumberAt, StringAt;
      ReadAllString(buf, |before|, s, |before| + 4 + |s|, items);
  }

  /** The reader undoes any sequence of writes whose numbers and lengths fit 32 bits, and stops right after them. */
  lemma {:induction false} ReadsBack(before: Bytes, items: seq<Item>, after: Bytes)
    requires AllFit(items)
    ensures ReadAll(before + WriteAll(items) + after, |before|, items)
      == Some((items, |before| + |WriteAll(items)|))
    decreases |items|
  {
    hide *;
    if items == [] {
      ReadsNothing(before, after);
    } else {
      var first, tail := items[0], items[1..];
      assert items == [first] + tail;
      FitsSplit(first, tail);
      ReadsBack(before + WriteItem(first), tail, after);
      WriteCons(first, tail);
      Regroup3(before, WriteItem(first), WriteAll(tail), after);
      ItemReads(before, first, tail, WriteAll(tail) + after);
    }
  }

  lemma ReadsNothing(before: Bytes, after: Bytes)
    ensures ReadAll(before + WriteAll([]) + after, |before|, []) == Some(([], |before| + |WriteAll([])|))
  {
  }

  lemma {:induction false} FitsSplit(first: Item, tail: seq<Item>)
    requires AllFit([first] + tail)
    ensures Fits(first) && AllFit(tail)
  {
    assert ([first] + tail)[0] == first;
    forall i | 0 <= i < |tail| ensures Fits(tail[i]) {
      assert ([first] + tail)[i + 1] == tail[i];
    }
  }

  lemma Regroup3(a: Bytes, b: Bytes, c: Bytes, d: Bytes)
    ensures a + (b + c) + d == a + b + c + d == a + b + (c + d)
  {
  }

  // ---------------------------------------------------------------- the replies

  datatype Kind = Ed25519 | Rsa
  datatype Key = Key(blob: Bytes, comment: Bytes, kind: Kind)

  /** What is written for a list of keys: the two strings of each, in order. */
  function KeyItems(keys: seq<Key>): (items: seq<Item>)
    ensures |items| == 2 * |keys|
  {
    if keys == [] then []
    else
      KeyItems(keys[..|keys| - 1])
      + [String(keys[|keys| - 1].blob), String(keys[|keys| - 1].comment)]
  }

  lemma {:induction false} KeyItemsAt(keys: seq<Key>, i: nat)
    requires i < |keys|
    ensures KeyItems(keys)[2 * i] == String(keys[i].blob) && KeyItems(keys)[2 * i + 1] == String(keys[i].comment)
    decreases |keys|
  {
    if i < |keys| - 1 {
      KeyItemsAt(keys[..|keys| - 1], i);
    }
  }

  predicate KeysFit(keys: seq<Key>) {
    && |keys| < 0x1_0000_0000
    && forall i :: 0 <= i < |keys| ==> |keys[i].blob| < 0x1_0000_0000 && |keys[i].comment| < 0x1_0000_0000
  }

  lemma {:induction false} KeyItemsFit(keys: seq<Key>)
    requires KeysFit(keys)
    ensures AllFit(KeyItems(keys))
    decreases |keys|
  {
    if keys != [] {
      KeyItemsFit(keys[..|keys| - 1]);
    }
  }

  lemma NothingWritten(more: seq<Item>)
    ensures WriteAll([] + more) == WriteAll([]) + WriteAll(more)
  {
    assert [] + more == more && [] + WriteAll(more) == WriteAll(more);
  }

  lemma {:induction false} WriteAllAppend(items: seq<Item>, more: seq<Item>)
    ensures WriteAll(items + more) == WriteAll(items) + WriteAll(more)
  {
    hide *;
    if items == [] {
      NothingWritten(more);
    } else {
      var first, rest := items[0], items[1..];
      WriteAllAppend(rest, more);
      WriteCons(first, rest + more);
      WriteCons(first, rest);
      assert items + more == [first] + (rest + more) && items == [first] + rest;
      assert WriteItem(first) + (WriteAll(rest) + WriteAll(more)) == WriteItem(first) + WriteAll(rest) + WriteAll(more);
    }
  }

  lemma WriteTwo(a: Item, b: Item)
    ensures WriteAll([a, b]) == WriteItem(a) + WriteItem(b)
  {
    WriteCons(a, [b]);
    WriteCons(b, []);
    assert [a] + [b] == [a, b] && [b] + [] == [b];
    assert WriteItem(b) + [] == WriteItem(b);
  }

  /** The count and the first `i` keys. */
  function KeysWritten(keys: seq<Key>, i: nat): Bytes
    requires i <= |keys|
  {
    WriteAll([Number(|keys|)] + KeyItems(keys[..i]))
  }

  /** One more key is written behind the others. */
  lemma {:induction false} WriteNextKey(keys: seq<Key>, i: nat)
    requires i < |keys|
    ensures KeysWritten(keys, i + 1) == KeysWritten(keys, i) + WriteString(keys[i].blob) + WriteString(keys[i].comment)
  {
    var done, more := [Number(|keys|)] + KeyItems(keys[..i]), [String(keys[i].blob), String(keys[i].comment)];
    assert keys[..i + 1][..i] == keys[..i];
    assert [Number(|keys|)] + KeyItems(keys[..i + 1]) == done + more;
    WriteAllAppend(done, more);
    WriteTwo(more[0], more[1]);
    hide WriteAll, WriteString;
  }

  lemma WriteCount(keys: seq<Key>)
    ensures KeysWritten(keys, 0) == WriteU32(|keys|)
  {
    WriteCons(Number(|keys|), []);
    assert [Number(|keys|)] + KeyItems(keys[..0]) == [Number(|keys|)] + [];
    assert WriteU32(|keys|) + [] == WriteU32(|keys|);
  }

  function ListReply(keys: seq<Key>): Bytes {
    [12] + WriteAll([Number(|keys|)] + KeyItems(keys))
  }

  lemma {:induction false} ListIsWritten(keys: seq<Key>)
    ensures ListReply(keys) == [12] + KeysWritten(keys, |keys|)
  {
    assert keys[..|keys|] == keys;
  }

  /** `handle_list`. */
  method HandleList(keys: seq<Key>) returns (out: Bytes)
    ensures out == ListReply(keys)
  {
    hide *;
    out := [12];
    out := out + WriteU32(|keys|);
    WriteCount(keys);
    for i := 0 to |keys|
      invariant out == [12] + KeysWritten(keys, i)
    {
      WriteNextKey(keys, i);
      out := out + WriteString(keys[i].blob);
      out := out + WriteString(keys[i].comment);
    }
    ListIsWritten(keys);
  }

  lemma KeyItemsTold(keys: seq<Key>)
    ensures var items := [Number(|keys|)] + KeyItems(keys);
      forall i :: 0 <= i < |keys| ==>
        items[1 + 2 * i] == String(keys[i].blob) && items[2 + 2 * i] == String(keys[i].comment)
  {
    var items := [Number(|keys|)] + KeyItems(keys);
    forall i | 0 <= i < |keys|
      ensures items[1 + 2 * i] == String(keys[i].blob) && items[2 + 2 * i] == String(keys[i].comment)
    {
      KeyItemsAt(keys, i);
      assert items[1 + 2 * i] == KeyItems(keys)[2 * i] && items[2 + 2 * i] == KeyItems(keys)[2 * i + 1];
    }
  }

  lemma {:induction false} ListItemsRead(keys: seq<Key>)
    requires KeysFit(keys)
    ensures var items := [Number(|keys|)] + KeyItems(keys);
      ReadAll(ListReply(keys), 1, items) == Some((items, |ListReply(keys)|))
  {
    var items := [Number(|keys|)] + KeyItems(keys);
    KeyItemsFit(keys);
    assert ListReply(keys) == [12] + WriteAll(items) + [] && |ListReply(keys)| == 1 + |WriteAll(items)|;
    assert AllFit(items);
    hide *;
    ReadsBack([12], items, []);
  }

  /** A client reads back the number of keys and, in order, the two strings of every key. */
  lemma {:induction false} ListReplyReads(keys: seq<Key>)
    requires KeysFit(keys)
    ensures ListReply(keys)[0] == 12
    ensures var items := [Number(|keys|)] + KeyItems(keys);
      && ReadAll(ListReply(keys), 1, items) == Some((items, |ListReply(keys)|))
      && |items| == 1 + 2 * |keys|
      && forall i :: 0 <= i < |keys| ==>
           items[1 + 2 * i] == String(keys[i].blob) && items[2 + 2 * i] == String(keys[i].comment)
  {
    assert |ListReply(keys)| > 0 && ListReply(keys)[0] == 12;
    hide *;
    ListItemsRead(keys);
    KeyItemsTold(keys);
  }

  /** The three parts of a sign request; missing flags count as zero. */
  datatype SignRequest = Refused | Request(blob: Bytes, data: Bytes, flags: nat)

  /** How `handle_sign` reads its payload. */
  method ReadSign(payload: Bytes) returns (r: SignRequest)
    ensures r == SignParts(payload)
  {
    var reader := new SshReader(payload);
    var blob := reader.ReadString();
    if blob.None? {
      return Refused;
    }
    var data := reader.ReadString();
    if data.None? {
      return Refused;
    }
    var flags := reader.ReadU32();
    r := Request(blob.value, data.value, if flags.Some? then flags.value else 0);
  }

  function SignParts(payload: Bytes): SignRequest {
    var (blob, p) := StringAt(payload, 0);
    if blob.None? then Refused
    else
      var (data, q) := StringAt(payload, p);
      if data.None? then Refused
      else Request(blob.value, data.value, if NumberAt(payload, q).Some? then NumberAt(payload, q).value else 0)
  }

  /** A request as a client writes it is understood, with or without flags. */
  lemma {:induction false} SignRequestReads(blob: Bytes, data: Bytes, flags: nat)
    requires |blob| < 0x1_0000_0000 && |data| < 0x1_0000_0000 && flags < 0x1_0000_0000
    ensures SignParts(WriteString(blob) + WriteString(data) + WriteU32(flags)) == Request(blob, data, flags)
    ensures SignParts(WriteString(blob) + WriteString(data)) == Request(blob, data, 0)
  {
    var b, d, f := WriteString(blob), WriteString(data), WriteU32(flags);
    StringBack([], blob, d + f);
    StringBack(b, data, f);
    NumberBack(b + d, flags, []);
    StringBack([], blob, d);
    StringBack(b, data, []);
    NothingLeft(b + d);
    hide WriteU32, NumberAt, StringAt;
    assert [] + b + (d + f) == b + d + f && [] + b + d == b + d && b + d + [] == b + d;
    assert b + d + f + [] == b + d + f;
    assert |b| == 4 + |blob| && |d| == 4 + |data|;
  }

  lemma NothingLeft(buf: Bytes)
    ensures NumberAt(buf, |buf|) == None
  {
  }

  // ------------------------------------------------------------- what is answered

  function Ascii(s: string): (b: Bytes)
    ensures |b| == |s|
    ensures forall i :: 0 <= i < |s| ==> b[i] == s[i] as nat
  {
    seq(|s|, i requires 0 <= i < |s| => s[i] as nat)
  }

  /** The first key with that blob. */
  function KeyWith(keys: seq<Key>, blob: Bytes): Option<Key> {
    if keys == [] then None else if keys[0].blob == blob then Some(keys[0]) else KeyWith(keys[1..], blob)
  }

  /** Only flag 4 asks an RSA key for SHA-512; anything else, none included, gets SHA-256. */
  function Algorithm(kind: Kind, flags: nat): string {
    if kind.Ed25519? then "ssh-ed25519" else if flags == 4 then "rsa-sha2-512" else "rsa-sha2-256"
  }

  /** What the guard says to a key, and the library's signature of some data by a key under an algorithm. */
  datatype Signing = Signing(grants: Key -> bool, sign: (Key, Bytes, string) -> Bytes)

  /** `handle_sign`, when the keys stay as they are. */
  function SignReply(keys: seq<Key>, payload: Bytes, signing: Signing): Bytes {
    match SignParts(payload)
    case Refused => [5]
    case Request(blob, data, flags) =>
      var key := KeyWith(keys, blob);
      if key.None? || !signing.grants(key.value) then [5]
      else
        var algorithm := Algorithm(key.value.kind, flags);
        [14] + WriteString(WriteString(Ascii(algorithm)) + WriteString(signing.sign(key.value, data, algorithm)))
  }

  /** What one message is answered with. */
  function Answer(keys: seq<Key>, message: Bytes, signing: Signing): Bytes
    requires message != []
  {
    if message[0] == 11 then ListReply(keys)
    else if message[0] == 13 then SignReply(keys, message[1..], signing)
    else [5]
  }

  lemma {:induction false} KeyWithIsFirst(keys: seq<Key>, blob: Bytes) returns (i: nat)
    ensures KeyWith(keys, blob).None? ==> forall j :: 0 <= j < |keys| ==> keys[j].blob != blob
    ensures KeyWith(keys, blob).Some? ==>
      && i < |keys| && KeyWith(keys, blob).value == keys[i] && keys[i].blob == blob
      && forall j :: 0 <= j < i ==> keys[j].blob != blob
  {
    i := 0;
    if keys != [] && keys[0].blob != blob {
      i := KeyWithIsFirst(keys[1..], blob);
      i := i + 1;
    }
  }

  /** What a client makes of a reply to a sign request: a failure, or the algorithm and the signature. */
  datatype SignAnswer = Failure | Garbled | Signature(algorithm: Bytes, signature: Bytes)

  function SignAnswerOf(reply: Bytes): SignAnswer {
    if reply == [5] then Failure
    else if reply == [] || reply[0] != 14 then Garbled
    else
      var (inner, p) := StringAt(reply, 1);
      if inner.None? || p != |reply| then Garbled else SignatureOf(inner.value)
  }

  function SignatureOf(inner: Bytes): SignAnswer {
    var (algorithm, p) := StringAt(inner, 0);
    if algorithm.None? then Garbled
    else
      var (signature, q) := StringAt(inner, p);
      if signature.None? || q != |inner| then Garbled else Signature(algorithm.value, signature.value)
  }

  lemma InnerReads(algorithm: Bytes, signature: Bytes)
    requires |algorithm| < 0x1_0000_0000 && |signature| < 0x1_0000_0000
    ensures SignatureOf(WriteString(algorithm) + WriteString(signature)) == Signature(algorithm, signature)
  {
    var a, b := WriteString(algorithm), WriteString(signature);
    assert |a| == 4 + |algorithm| && |b| == 4 + |signature|;
    StringBack([], algorithm, b);
    StringBack(a, signature, []);
    hide StringAt, WriteString;
    assert [] + a + b == a + b && a + b + [] == a + b;
  }

  lemma SignatureReads(algorithm: Bytes, signature: Bytes)
    requires |algorithm| + |signature| + 8 < 0x1_0000_0000
    ensures SignAnswerOf([14] + WriteString(WriteString(algorithm) + WriteString(signature)))
      == Signature(algorithm, signature)
  {
    var inner := WriteString(algorithm) + WriteString(signature);
    var reply := [14] + WriteString(inner);
    assert |inner| == 8 + |algorithm| + |signature| && |reply| == 5 + |inner| && reply[0] == 14;
    StringBack([14], inner, []);
    InnerReads(algorithm, signature);
    hide StringAt, WriteString, SignatureOf;
    assert reply + [] == reply;
  }

  /** The key the client names, if the agent has it: the first one with that blob. */
  ghost predicate Names(keys: seq<Key>, i: nat, blob: Bytes) {
    i < |keys| && keys[i].blob == blob && forall j :: 0 <= j < i ==> keys[j].blob != blob
  }

  /**
   * A request as a client writes it gets a failure exactly when the agent has no such key or the guard refuses it;
   * otherwise the client reads back that key's signature of its data, under the algorithm the flags call for.
   */
  lemma SignRequestAnswered(keys: seq<Key>, blob: Bytes, data: Bytes, flags: nat, signing: Signing)
    requires |blob| < 0x1_0000_0000 && |data| < 0x1_0000_0000 && flags < 0x1_0000_0000
    requires forall key: Key, algorithm: string :: |signing.sign(key, data, algorithm)| < 0x8000_0000
    ensures var answer := SignAnswerOf(
      Answer(keys, [13] + (WriteString(blob) + WriteString(data) + WriteU32(flags)), signing));
      && (answer.Failure? <==> forall i: nat :: Names(keys, i, blob) ==> !signing.grants(keys[i]))
      && (forall i: nat :: Names(keys, i, blob) && signing.grants(keys[i]) ==>
            var name := if keys[i].kind == Ed25519 then "ssh-ed25519"
                        else if flags == 4 then "rsa-sha2-512" else "rsa-sha2-256";
            answer == Signature(Ascii(name), signing.sign(keys[i], data, name)))
  {
    var payload := WriteString(blob) + WriteString(data) + WriteU32(flags);
    SignRequestReads(blob, data, flags);
    assert ([13] + payload)[0] == 13 && ([13] + payload)[1..] == payload;
    var i := KeyWithIsFirst(keys, blob);
    var key := KeyWith(keys, blob);
    assert key.Some? ==> Names(keys, i, blob);
    forall j: nat | Names(keys, j, blob) ensures key == Some(keys[j]) {
    }
    if key.Some? {
      var algorithm := Algorithm(key.value.kind, flags);
      SignatureReads(Ascii(algorithm), signing.sign(key.value, data, algorithm));
    }
    hide SignAnswerOf, WriteString, WriteU32, SignParts, KeyWith, ListReply;
    FailureReads();
  }

  lemma FailureReads()
    ensures SignAnswerOf([5]) == Failure
  {
  }

  /**
   * Asked for its keys the agent lists them; to a sign request it cannot read, and to anything it does not know, it
   * answers with a failure.
   */
  lemma OthersAnswered(keys: seq<Key>, message: Bytes, signing: Signing)
    requires message != []
    ensures message[0] == 11 ==> Answer(keys, message, signing) == ListReply(keys)
    ensures message[0] != 11 && message[0] != 13 ==> Answer(keys, message, signing) == [5]
    ensures message[0] == 13 && StringAt(message[1..], 0).0.None? ==> Answer(keys, message, signing) == [5]
    ensures message[0] == 13 && StringAt(message[1..], StringAt(message[1..], 0).1).0.None? ==>
      Answer(keys, message, signing) == [5]
  {
  }

  // ---------------------------------------------------------- the connection loop

  datatype Ending = Closed | Stopped | BrokenOff

  /** The complete, well-sized requests at the front of a stream. */
  function Requests(input: Bytes): (seq<Bytes>, Ending)
    decreases |input|
  {
    if |input| < 4 then ([], Closed)
    else
      var len := Value(256, input[..4]);
      if len == 0 || len > 262_144 then ([], Stopped)
      else if |input| < 4 + len then ([], BrokenOff)
      else
        var (rest, end) := Requests(input[4 + len..]);
        ([input[4..4 + len]] + rest, end)
  }

  /** A handler's reply to the `n`-th request of the connection. */
  type Handler = (nat, Bytes) -> Bytes

  /** One frame for each request, in order. */
  function Replies(requests: seq<Bytes>, handler: Handler, n: nat): Bytes {
    if requests == [] then []
    else WriteString(handler(n, requests[0])) + Replies(requests[1..], handler, n + 1)
  }

  /** `serve`: answers request after request until the stream ends or a length is out of range. */
  method Serve(input: Bytes, handler: Handler) returns (output: Bytes, end: Ending)
    ensures output == Replies(Requests(input).0, handler, 0)
    ensures end == Requests(input).1
  {
    hide Requests, Replies, Value, WriteString, WriteU32;
    output := [];
    var rest, n: nat := input, 0;
    while true
      invariant output + Replies(Requests(rest).0, handler, n) == Replies(Requests(input).0, handler, 0)
      invariant Requests(rest).1 == Requests(input).1
      decreases |rest|
    {
      NoMoreRequests(rest);
      NoReplies(handler, n);
      if |rest| < 4 {
        return output, Closed;
      }
      var len := Value(256, rest[..4]);
      if len == 0 || len > 262_144 {
        return output, Stopped;
      }
      if |rest| < 4 + len {
        return output, BrokenOff;
      }
      NextReply(rest, handler, n);
      var response := handler(n, rest[4..4 + len]);
      output := output + WriteU32(|response|);
      output := output + response;
      JoinReply(response);
      rest, n := rest[4 + len..], n + 1;
    }
  }

  lemma NoMoreRequests(rest: Bytes)
    ensures |rest| < 4 ==> Requests(rest) == ([], Closed)
    ensures |rest| >= 4 ==> var len := Value(256, rest[..4]);
      && (len == 0 || len > 262_144 ==> Requests(rest) == ([], Stopped))
      && (0 < len <= 262_144 && |rest| < 4 + len ==> Requests(rest) == ([], BrokenOff))
  {
    hide Value;
  }

  lemma NoReplies(handler: Handler, n: nat)
    ensures forall a: Bytes :: a + Replies([], handler, n) == a
  {
  }

  lemma JoinReply(response: Bytes)
    ensures forall a: Bytes :: a + WriteU32(|response|) + response == a + WriteString(response)
  {
  }

  lemma {:induction false} NextReply(rest: Bytes, handler: Handler, n: nat)
    requires |rest| >= 4
    requires var len := Value(256, rest[..4]); 0 < len <= 262_144 && |rest| >= 4 + len
    ensures var len := Value(256, rest[..4]);
      && Requests(rest).1 == Requests(rest[4 + len..]).1
      && forall a: Bytes :: a + Replies(Requests(rest).0, handler, n)
           == a + WriteString(handler(n, rest[4..4 + len])) + Replies(Requests(rest[4 + len..]).0, handler, n + 1)
  {
    var len := Value(256, rest[..4]);
    var all, more := Requests(rest).0, Requests(rest[4 + len..]).0;
    assert all == [rest[4..4 + len]] + more && all[1..] == more;
    hide Requests, Value, WriteString;
    forall a: Bytes
      ensures a + Replies(all, handler, n)
        == a + WriteString(handler(n, rest[4..4 + len])) + Replies(more, handler, n + 1)
    {
    }
  }

  /** How a stream goes on when no complete request is left: too short a length, one out of range, too few bytes. */
  lemma StreamEnds(len: nat, rest: Bytes)
    requires len < 0x1_0000_0000
    ensures len == 0 || len > 262_144 ==> Requests(WriteU32(len) + rest) == ([], Stopped)
    ensures 0 < len <= 262_144 && |rest| < len ==> Requests(WriteU32(len) + rest) == ([], BrokenOff)
    ensures |rest| < 4 ==> Requests(rest) == ([], Closed)
  {
    hide *;
    var input := WriteU32(len) + rest;
    LengthAt(len, rest);
    NoMoreRequests(input);
    NoMoreRequests(rest);
  }

  lemma LengthAt(len: nat, rest: Bytes)
    requires len < 0x1_0000_0000
    ensures var input := WriteU32(len) + rest; |input| == 4 + |rest| && Value(256, input[..4]) == len
  {
    NumberBack([], len, rest);
    hide Value, WriteU32;
    assert [] + WriteU32(len) + rest == WriteU32(len) + rest;
  }

  function Frames(messages: seq<Bytes>): Bytes {
    if messages == [] then [] else WriteString(messages[0]) + Frames(messages[1..])
  }

  lemma {:induction false} FrameCons(m: Bytes, messages: seq<Bytes>, tail: Bytes)
    ensures Frames([m] + messages) + tail == WriteString(m) + (Frames(messages) + tail)
  {
    assert ([m] + messages)[1..] == messages;
  }

  lemma NoFrames(tail: Bytes)
    ensures Frames([]) + tail == tail
  {
  }

  predicate WellSized(messages: seq<Bytes>) {
    forall i :: 0 <= i < |messages| ==> 0 < |messages[i]| <= 262_144
  }

  /** Any sequence of well-sized messages is cut out of the stream unchanged, whatever follows. */
  lemma {:induction false} FramesAreRequests(messages: seq<Bytes>, tail: Bytes)
    requires WellSized(messages)
    ensures Requests(Frames(messages) + tail) == (messages + Requests(tail).0, Requests(tail).1)
  {
    if messages == [] {
      NoFrames(tail);
      hide Requests, Frames;
      assert messages + Requests(tail).0 == Requests(tail).0;
    } else {
      var m, rest := messages[0], messages[1..];
      assert WellSized(rest);
      hide *;
      FramesAreRequests(rest, tail);
      OneMoreFrame(m, rest, tail);
      assert messages == [m] + rest;
    }
  }

  lemma {:induction false} OneMoreFrame(m: Bytes, rest: seq<Bytes>, tail: Bytes)
    requires 0 < |m| <= 262_144 && Requests(Frames(rest) + tail) == (rest + Requests(tail).0, Requests(tail).1)
    ensures Requests(Frames([m] + rest) + tail) == ([m] + rest + Requests(tail).0, Requests(tail).1)
  {
    hide *;
    FrameHead(m, Frames(rest) + tail);
    FrameCons(m, rest, tail);
    assert [m] + (rest + Requests(tail).0) == [m] + rest + Requests(tail).0;
  }

  lemma {:induction false} FrameParts(m: Bytes, rest: Bytes)
    requires |m| < 0x1_0000_0000
    ensures var input := WriteString(m) + rest;
      |input| >= 4 + |m| && Value(256, input[..4]) == |m| && input[4..4 + |m|] == m && input[4 + |m|..] == rest
  {
    var input := WriteString(m) + rest;
    NumberBack([], |m|, m + rest);
    hide WriteU32, Value;
    assert [] + WriteU32(|m|) + (m + rest) == input;
  }

  lemma {:induction false} NextRequest(input: Bytes, m: Bytes, rest: Bytes)
    requires |input| >= 4 + |m| && Value(256, input[..4]) == |m| && 0 < |m| <= 262_144
    requires input[4..4 + |m|] == m && input[4 + |m|..] == rest
    ensures Requests(input) == ([m] + Requests(rest).0, Requests(rest).1)
  {
    hide Value;
  }

  lemma {:induction false} FrameHead(m: Bytes, rest: Bytes)
    requires 0 < |m| <= 262_144
    ensures Requests(WriteString(m) + rest) == ([m] + Requests(rest).0, Requests(rest).1)
  {
    hide *;
    FrameParts(m, rest);
    NextRequest(WriteString(m) + rest, m, rest);
  }

  function RepliesTo(requests: seq<Bytes>, handler: Handler, n: nat): (r: seq<Bytes>)
    ensures |r| == |requests|
    ensures forall i :: 0 <= i < |requests| ==> r[i] == handler(n + i, requests[i])
  {
    if requests == [] then [] else [handler(n, requests[0])] + RepliesTo(requests[1..], handler, n + 1)
  }

  lemma {:induction false} RepliesAreFrames(requests: seq<Bytes>, handler: Handler, n: nat)
    ensures Replies(requests, handler, n) == Frames(RepliesTo(requests, handler, n))
  {
    if requests != [] {
      RepliesAreFrames(requests[1..], handler, n + 1);
      assert RepliesTo(requests, handler, n)[1..] == RepliesTo(requests[1..], handler, n + 1);
    }
  }

  /** Each complete request gets exactly one reply, in order, and a client that frames the output finds them again. */
  lemma {:induction false} OneReplyEach(messages: seq<Bytes>, tail: Bytes, handler: Handler)
    requires WellSized(messages) && Requests(tail).0 == []
    requires WellSized(RepliesTo(messages, handler, 0))
    ensures var (requests, end) := Requests(Frames(messages) + tail);
      && requests == messages && end == Requests(tail).1
      && Requests(Replies(requests, handler, 0)) == (RepliesTo(messages, handler, 0), Closed)
  {
    var replies := RepliesTo(messages, handler, 0);
    assert Requests([]) == ([], Closed);
    hide *;
    FramesAreRequests(messages, tail);
    RepliesAreFrames(messages, handler, 0);
    FramesAreRequests(replies, []);
    assert messages + [] == messages && replies + [] == replies;
    assert Frames(replies) + [] == Frames(replies);
  }
}
