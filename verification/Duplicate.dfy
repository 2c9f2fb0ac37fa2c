/**
 * Writing an item and reading it back for a copy: `build_cipher_body` and `cipher_to_create_input` of
 * src-tauri/core/src/services/cipher.rs.
 */
module Duplicate {
  import opened Optional
  import opened Secrets
  import opened Text

  // ------------------------------------------------------------------ input

  datatype LoginInput = LoginInput(
    username: Option<string>, password: Option<string>, uris: seq<string>, totp: Option<string>)
  datatype FieldInput = FieldInput(kind: nat, name: Option<string>, value: Option<string>, linkedId: Option<nat>)

  /**
   * Card and identity are lists of optional texts in a fixed order; an SSH key is private key, public key,
   * fingerprint.
   */
  datatype Input = Input(
    name: string, folderId: Option<string>, favorite: bool, notes: Option<string>, login: Option<LoginInput>,
    card: Option<seq<Option<string>>>, identity: Option<seq<Option<string>>>, sshKey: Option<seq<Option<string>>>,
    cipherType: nat, organizationId: Option<string>, fields: seq<FieldInput>, reprompt: bool)

  datatype Result<T> = Ok(value: T) | MissingData | UnsupportedType | Unreadable

  // ------------------------------------------------------------- trimming rules

  /** Rust's `str::trim`. */
  function Trimmed(s: string): string {
    Trim(s, RustSpaces)
  }

  /** `Some` of a non-empty text. */
  function NonEmpty(s: string): Option<string> {
    if s == "" then None else Some(s)
  }

  /** What `enc_opt` keeps of a text, and what `enc_opt_raw` keeps. */
  function KeepTrimmed(o: Option<string>): Option<string> {
    if o.Some? then NonEmpty(Trimmed(o.value)) else None
  }

  function KeepRaw(o: Option<string>): Option<string> {
    if o.Some? then NonEmpty(o.value) else None
  }

  function KeepAll(l: seq<Option<string>>): (r: seq<Option<string>>)
    ensures |r| == |l|
    ensures forall i :: 0 <= i < |l| ==> r[i] == KeepTrimmed(l[i])
  {
    seq(|l|, i requires 0 <= i < |l| => KeepTrimmed(l[i]))
  }

  /** Only the private key keeps its white space. */
  function KeepSsh(l: seq<Option<string>>): (r: seq<Option<string>>)
    ensures |r| == |l|
    ensures forall i :: 0 <= i < |l| ==> r[i] == if i == 0 then KeepRaw(l[i]) else KeepTrimmed(l[i])
  {
    seq(|l|, i requires 0 <= i < |l| => if i == 0 then KeepRaw(l[i]) else KeepTrimmed(l[i]))
  }

  function KeepUris(uris: seq<string>): seq<string> {
    if uris == [] then []
    else (if Trimmed(uris[0]) == "" then [] else [Trimmed(uris[0])]) + KeepUris(uris[1..])
  }

  function KeepFields(l: seq<FieldInput>): (r: seq<FieldInput>)
    ensures |r| == |l|
    ensures forall i :: 0 <= i < |l| ==> r[i] == l[i].(name := KeepRaw(l[i].name), value := KeepRaw(l[i].value))
  {
    seq(|l|, i requires 0 <= i < |l| => l[i].(name := KeepRaw(l[i].name), value := KeepRaw(l[i].value)))
  }

  // -------------------------------------------------------------------- writing

  function EncryptOpt(o: Option<string>, key: Key, iv: nat): Option<Secret> {
    if o.Some? then Some(EncryptText(o.value, key, iv)) else None
  }

  function EncryptList(l: seq<Option<string>>, key: Key, place: Place, draw: Draw): (r: seq<Option<Secret>>)
    ensures |r| == |l|
    ensures forall i :: 0 <= i < |l| ==> r[i] == EncryptOpt(l[i], key, draw(Slot(0, place, i)))
  {
    seq(|l|, i requires 0 <= i < |l| => EncryptOpt(l[i], key, draw(Slot(0, place, i))))
  }

  function EncryptUris(l: seq<string>, key: Key, draw: Draw): (r: seq<Option<Secret>>)
    ensures |r| == |l|
    ensures forall i :: 0 <= i < |l| ==> r[i] == Some(EncryptText(l[i], key, draw(Slot(0, Uri, i))))
  {
    seq(|l|, i requires 0 <= i < |l| => Some(EncryptText(l[i], key, draw(Slot(0, Uri, i)))))
  }

  function EncryptFields(l: seq<FieldInput>, key: Key, draw: Draw): (r: seq<Field<Secret>>)
    ensures |r| == |l|
    ensures forall i :: 0 <= i < |l| ==> r[i] == Field(
      Some(l[i].kind), EncryptOpt(KeepRaw(l[i].name), key, draw(Slot(0, FieldName, i))),
      EncryptOpt(KeepRaw(l[i].value), key, draw(Slot(0, FieldValue, i))), l[i].linkedId)
  {
    seq(|l|, i requires 0 <= i < |l| => Field(
      Some(l[i].kind), EncryptOpt(KeepRaw(l[i].name), key, draw(Slot(0, FieldName, i))),
      EncryptOpt(KeepRaw(l[i].value), key, draw(Slot(0, FieldValue, i))), l[i].linkedId))
  }

  function EncryptLogin(l: LoginInput, key: Key, draw: Draw): Login<Secret> {
    Login(
      EncryptOpt(KeepTrimmed(l.username), key, draw(Slot(0, Username, 0))),
      EncryptOpt(KeepRaw(l.password), key, draw(Slot(0, Password, 0))),
      EncryptOpt(KeepTrimmed(l.totp), key, draw(Slot(0, Totp, 0))),
      Some(EncryptUris(KeepUris(l.uris), key, draw)))
  }

  function KindOf(cipherType: nat): Kind
    requires 1 <= cipherType <= 5
  {
    if cipherType == 1 then LoginKind else if cipherType == 2 then SecureNote
    else if cipherType == 3 then CardKind else if cipherType == 4 then IdentityKind else SshKind
  }

  function NumberOf(kind: Kind): nat {
    match kind case LoginKind => 1 case SecureNote => 2 case CardKind => 3 case IdentityKind => 4 case SshKind => 5
  }

  /** Whether the input carries the sub-object its type calls for. */
  predicate Complete(x: Input) {
    && (x.cipherType == 1 ==> x.login.Some?) && (x.cipherType == 3 ==> x.card.Some?)
    && (x.cipherType == 4 ==> x.identity.Some?) && (x.cipherType == 5 ==> x.sshKey.Some?)
  }

  /** `build_cipher_body`, as the server stores it under `id`: only the sub-object of the declared type is written. */
  function Write(x: Input, key: Key, id: string, draw: Draw): Result<Cipher> {
    if !(1 <= x.cipherType <= 5) then UnsupportedType
    else if !Complete(x) then MissingData
    else
      var item := Item(
        EncryptText(x.name, key, draw(Slot(0, Name, 0))), EncryptOpt(KeepRaw(x.notes), key, draw(Slot(0, Notes, 0))),
        if x.cipherType == 1 then Some(EncryptLogin(x.login.value, key, draw)) else None,
        if x.cipherType == 3 then Some(EncryptList(KeepAll(x.card.value), key, CardField, draw)) else None,
        if x.cipherType == 4 then Some(EncryptList(KeepAll(x.identity.value), key, IdentityField, draw)) else None,
        if x.cipherType == 5 then Some(EncryptList(KeepSsh(x.sshKey.value), key, SshField, draw)) else None,
        Some(EncryptFields(x.fields, key, draw)), None);
      Ok(Cipher(
        id, KindOf(x.cipherType), None, item, x.organizationId, x.folderId, [], None, None, x.favorite,
        Some(if x.reprompt then 1 else 0), None))
  }

  // -------------------------------------------------------------------- reading

  /** The text of a field, unless it is absent, unreadable or empty. */
  function Dec(o: Option<Secret>, key: Key): Option<string> {
    if o.Some? && ReadText(o.value, key).Some? then NonEmpty(ReadText(o.value, key).value) else None
  }

  function DecList(l: seq<Option<Secret>>, key: Key): (r: seq<Option<string>>)
    ensures |r| == |l|
    ensures forall i :: 0 <= i < |l| ==> r[i] == Dec(l[i], key)
  {
    seq(|l|, i requires 0 <= i < |l| => Dec(l[i], key))
  }

  function DecUris(l: seq<Option<Secret>>, key: Key): seq<string> {
    if l == [] then []
    else (if Dec(l[0], key).Some? then [Dec(l[0], key).value] else []) + DecUris(l[1..], key)
  }

  function DecFields(l: seq<Field<Secret>>, key: Key): (r: seq<FieldInput>)
    ensures |r| == |l|
    ensures forall i :: 0 <= i < |l| ==>
      r[i] == FieldInput(
        if l[i].kind.Some? then l[i].kind.value else 0, Dec(l[i].name, key), Dec(l[i].value, key), l[i].linkedId)
  {
    seq(|l|, i requires 0 <= i < |l| =>
      FieldInput(
        if l[i].kind.Some? then l[i].kind.value else 0, Dec(l[i].name, key), Dec(l[i].value, key), l[i].linkedId))
  }

  function DecLogin(l: Login<Secret>, key: Key): LoginInput {
    LoginInput(
      Dec(l.username, key), Dec(l.password, key), DecUris(if l.uris.Some? then l.uris.value else [], key),
      Dec(l.totp, key))
  }

  /** `cipher_to_create_input`; only an unreadable name fails it. */
  function Read(c: Cipher, key: Key): Result<Input> {
    var name := ReadText(c.item.name, key);
    if name.None? then Unreadable
    else Ok(Input(
      name.value, c.folderId, c.favorite, Dec(c.item.notes, key),
      if c.item.login.Some? then Some(DecLogin(c.item.login.value, key)) else None,
      if c.item.card.Some? then Some(DecList(c.item.card.value, key)) else None,
      if c.item.identity.Some? then Some(DecList(c.item.identity.value, key)) else None,
      if c.item.sshKey.Some? then Some(DecList(c.item.sshKey.value, key)) else None,
      NumberOf(c.kind), c.organizationId,
      DecFields(if c.item.fields.Some? then c.item.fields.value else [], key),
      c.reprompt.Some? && c.reprompt.value != 0))
  }

  // ----------------------------------------------------------------- round trip

  function NormalLogin(l: LoginInput): LoginInput {
    LoginInput(KeepTrimmed(l.username), KeepRaw(l.password), KeepUris(l.uris), KeepTrimmed(l.totp))
  }

  /** What a save keeps of an input. */
  function Normal(x: Input): Input
    requires Complete(x)
  {
    x.(notes := KeepRaw(x.notes),
       login := if x.cipherType == 1 then Some(NormalLogin(x.login.value)) else None,
       card := if x.cipherType == 3 then Some(KeepAll(x.card.value)) else None,
       identity := if x.cipherType == 4 then Some(KeepAll(x.identity.value)) else None,
       sshKey := if x.cipherType == 5 then Some(KeepSsh(x.sshKey.value)) else None,
       fields := KeepFields(x.fields))
  }

  lemma DecEncrypted(o: Option<string>, key: Key, iv: nat)
    requires o.Some? ==> o.value != ""
    ensures Dec(EncryptOpt(o, key, iv), key) == o
  {
  }

  lemma DecEncryptedList(l: seq<Option<string>>, key: Key, place: Place, draw: Draw)
    requires forall i :: 0 <= i < |l| && l[i].Some? ==> l[i].value != ""
    ensures DecList(EncryptList(l, key, place, draw), key) == l
  {
    forall i | 0 <= i < |l| ensures Dec(EncryptOpt(l[i], key, draw(Slot(0, place, i))), key) == l[i] {
      DecEncrypted(l[i], key, draw(Slot(0, place, i)));
    }
  }

  lemma {:induction false} DecAllPresent(l: seq<Option<Secret>>, texts: seq<string>, key: Key)
    requires |l| == |texts| && forall i :: 0 <= i < |l| ==> Dec(l[i], key) == Some(texts[i])
    ensures DecUris(l, key) == texts
  {
    if l != [] {
      DecAllPresent(l[1..], texts[1..], key);
      assert texts == [texts[0]] + texts[1..];
    }
  }

  lemma {:induction false} KeptUrisNotEmpty(uris: seq<string>)
    ensures forall i :: 0 <= i < |KeepUris(uris)| ==>
      KeepUris(uris)[i] != "" && Trimmed(KeepUris(uris)[i]) == KeepUris(uris)[i]
  {
    if uris != [] {
      KeptUrisNotEmpty(uris[1..]);
      TrimTwice(uris[0]);
    }
  }

  lemma DecEncryptedUris(uris: seq<string>, key: Key, draw: Draw)
    ensures DecUris(EncryptUris(KeepUris(uris), key, draw), key) == KeepUris(uris)
  {
    KeptUrisNotEmpty(uris);
    DecAllPresent(EncryptUris(KeepUris(uris), key, draw), KeepUris(uris), key);
  }

  lemma DecEncryptedFields(l: seq<FieldInput>, key: Key, draw: Draw)
    ensures DecFields(EncryptFields(l, key, draw), key) == KeepFields(l)
  {
    forall i | 0 <= i < |l|
      ensures DecFields(EncryptFields(l, key, draw), key)[i] == KeepFields(l)[i]
    {
      DecEncrypted(KeepRaw(l[i].name), key, draw(Slot(0, FieldName, i)));
      DecEncrypted(KeepRaw(l[i].value), key, draw(Slot(0, FieldValue, i)));
    }
  }

  lemma DecEncryptedLogin(l: LoginInput, key: Key, draw: Draw)
    ensures DecLogin(EncryptLogin(l, key, draw), key) == NormalLogin(l)
  {
    DecEncrypted(KeepTrimmed(l.username), key, draw(Slot(0, Username, 0)));
    DecEncrypted(KeepRaw(l.password), key, draw(Slot(0, Password, 0)));
    DecEncrypted(KeepTrimmed(l.totp), key, draw(Slot(0, Totp, 0)));
    DecEncryptedUris(l.uris, key, draw);
    hide Dec, EncryptOpt, KeepRaw, KeepTrimmed, KeepUris, EncryptUris, DecUris;
  }

  lemma DecEncryptedLists(l: seq<Option<string>>, key: Key, place: Place, draw: Draw)
    ensures DecList(EncryptList(KeepAll(l), key, place, draw), key) == KeepAll(l)
    ensures DecList(EncryptList(KeepSsh(l), key, place, draw), key) == KeepSsh(l)
  {
    DecEncryptedList(KeepAll(l), key, place, draw);
    DecEncryptedList(KeepSsh(l), key, place, draw);
  }

  lemma ReadEncryptedName(name: string, key: Key, iv: nat)
    ensures ReadText(EncryptText(name, key, iv), key) == Some(name)
  {
  }

  /** Reading back what was written gives the input in normal form, for every input that is written at all. */
  lemma ReadWritten(x: Input, key: Key, id: string, draw: Draw)
    requires Write(x, key, id, draw).Ok?
    ensures Read(Write(x, key, id, draw).value, key) == Ok(Normal(x))
  {
    ReadEncryptedName(x.name, key, draw(Slot(0, Name, 0)));
    DecEncrypted(KeepRaw(x.notes), key, draw(Slot(0, Notes, 0)));
    hide Dec, EncryptOpt, EncryptText, ReadText, KeepRaw, EncryptFields, DecFields, KeepFields;
    hide EncryptLogin, DecLogin, NormalLogin, EncryptList, DecList, KeepAll, KeepSsh;
    DecEncryptedFields(x.fields, key, draw);
    if x.cipherType == 1 {
      DecEncryptedLogin(x.login.value, key, draw);
    } else if x.cipherType == 3 {
      DecEncryptedLists(x.card.value, key, CardField, draw);
    } else if x.cipherType == 4 {
      DecEncryptedLists(x.identity.value, key, IdentityField, draw);
    } else if x.cipherType == 5 {
      DecEncryptedLists(x.sshKey.value, key, SshField, draw);
    }
  }

  // ------------------------------------------------------------ copies of copies

  lemma {:induction false} TrimFrontFixed(s: string, edge: Edge)
    requires s == "" || !Drops(edge, s[0])
    ensures TrimFront(s, edge) == s
  {
  }

  lemma {:induction false} TrimBackFixed(s: string, edge: Edge)
    requires s == "" || !Drops(edge, s[|s| - 1])
    ensures TrimBack(s, edge) == s
  {
  }

  lemma TrimTwice(s: string)
    ensures Trimmed(Trimmed(s)) == Trimmed(s)
  {
    var t := Trimmed(s);
    TrimFrontFixed(t, RustSpaces);
    TrimBackFixed(t, RustSpaces);
  }

  lemma KeepTwice(o: Option<string>)
    ensures KeepTrimmed(KeepTrimmed(o)) == KeepTrimmed(o) && KeepRaw(KeepRaw(o)) == KeepRaw(o)
  {
    if o.Some? {
      TrimTwice(o.value);
    }
  }

  lemma {:induction false} KeepUrisFixed(uris: seq<string>)
    requires forall i :: 0 <= i < |uris| ==> uris[i] != "" && Trimmed(uris[i]) == uris[i]
    ensures KeepUris(uris) == uris
  {
    if uris != [] {
      KeepUrisFixed(uris[1..]);
      assert uris == [uris[0]] + uris[1..];
    }
  }

  lemma KeepListsTwice(l: seq<Option<string>>)
    ensures KeepAll(KeepAll(l)) == KeepAll(l) && KeepSsh(KeepSsh(l)) == KeepSsh(l)
  {
    forall i | 0 <= i < |l| ensures KeepAll(KeepAll(l))[i] == KeepAll(l)[i] && KeepSsh(KeepSsh(l))[i] == KeepSsh(l)[i] {
      KeepTwice(l[i]);
    }
  }

  lemma NormalTwice(x: Input)
    requires Complete(x)
    ensures Complete(Normal(x)) && Normal(Normal(x)) == Normal(x)
  {
    KeepTwice(x.notes);
    forall i | 0 <= i < |x.fields| ensures KeepFields(KeepFields(x.fields))[i] == KeepFields(x.fields)[i] {
      KeepTwice(x.fields[i].name);
      KeepTwice(x.fields[i].value);
    }
    assert KeepFields(KeepFields(x.fields)) == KeepFields(x.fields);
    if x.cipherType == 1 {
      var l := x.login.value;
      KeepTwice(l.username);
      KeepTwice(l.password);
      KeepTwice(l.totp);
      KeptUrisNotEmpty(l.uris);
      KeepUrisFixed(KeepUris(l.uris));
    } else if x.cipherType == 3 {
      KeepListsTwice(x.card.value);
    } else if x.cipherType == 4 {
      KeepListsTwice(x.identity.value);
    } else if x.cipherType == 5 {
      KeepListsTwice(x.sshKey.value);
    }
  }

  /** A copy of a copy is a copy: writing what was read back can always be done, and changes nothing any more. */
  lemma CopyOfCopy(x: Input, key: Key, id: string, draw: Draw, otherKey: Key, otherId: string, otherDraw: Draw)
    requires Write(x, key, id, draw).Ok?
    ensures var copy := Read(Write(x, key, id, draw).value, key).value;
      && Read(Write(x, key, id, draw).value, key).Ok? && Write(copy, otherKey, otherId, otherDraw).Ok?
      && Read(Write(copy, otherKey, otherId, otherDraw).value, otherKey) == Ok(copy)
  {
    ReadWritten(x, key, id, draw);
    NormalTwice(x);
    assert Write(Normal(x), otherKey, otherId, otherDraw).Ok?;
    ReadWritten(Normal(x), otherKey, otherId, otherDraw);
    hide Read, Write, Normal;
  }

  // ------------------------------------------------- what a save keeps, text by text

  /** Kept as it is, unless there is nothing in it. */
  predicate KeptRaw(o: Option<string>, r: Option<string>) {
    r == if o == Some("") then None else o
  }

  /** Kept without the white space around it, unless there is nothing else in it. */
  ghost predicate KeptCore(o: Option<string>, r: Option<string>) {
    && r != Some("") && (o.None? ==> r.None?)
    && (o.Some? ==> HasCore(o.value, if r.Some? then r.value else ""))
  }

  ghost predicate HasCore(s: string, t: string) {
    exists front, back :: IsCore(s, front, t, back, RustSpaces)
  }

  /** Address for address, without those of white space only. */
  ghost predicate KeptAddresses(uris: seq<string>, r: seq<string>) {
    if uris == [] then r == []
    else if AllDropped(uris[0], RustSpaces) then KeptAddresses(uris[1..], r)
    else r != [] && KeptCore(Some(uris[0]), Some(r[0])) && KeptAddresses(uris[1..], r[1..])
  }

  ghost predicate KeptTexts(l: seq<Option<string>>, r: seq<Option<string>>, rawFirst: bool) {
    |r| == |l| && forall i :: 0 <= i < |l| ==> if i == 0 && rawFirst then KeptRaw(l[i], r[i]) else KeptCore(l[i], r[i])
  }

  /** Everything a save keeps of an input. */
  ghost predicate Kept(x: Input, y: Input) {
    && y.name == x.name && y.folderId == x.folderId && y.favorite == x.favorite && KeptRaw(x.notes, y.notes)
    && y.cipherType == x.cipherType && y.organizationId == x.organizationId && y.reprompt == x.reprompt
    && |y.fields| == |x.fields|
    && (forall i :: 0 <= i < |x.fields| ==>
          && y.fields[i].kind == x.fields[i].kind && y.fields[i].linkedId == x.fields[i].linkedId
          && KeptRaw(x.fields[i].name, y.fields[i].name) && KeptRaw(x.fields[i].value, y.fields[i].value))
    && (y.login.Some? <==> x.cipherType == 1) && (y.card.Some? <==> x.cipherType == 3)
    && (y.identity.Some? <==> x.cipherType == 4) && (y.sshKey.Some? <==> x.cipherType == 5)
    && (x.cipherType == 1 && x.login.Some? ==>
          var l, r := x.login.value, y.login.value;
          && KeptCore(l.username, r.username) && KeptRaw(l.password, r.password) && KeptCore(l.totp, r.totp)
          && KeptAddresses(l.uris, r.uris))
    && (x.cipherType == 3 && x.card.Some? ==> KeptTexts(x.card.value, y.card.value, false))
    && (x.cipherType == 4 && x.identity.Some? ==> KeptTexts(x.identity.value, y.identity.value, false))
    && (x.cipherType == 5 && x.sshKey.Some? ==> KeptTexts(x.sshKey.value, y.sshKey.value, true))
  }

  lemma KeepsOne(o: Option<string>)
    ensures KeptCore(o, KeepTrimmed(o)) && KeptRaw(o, KeepRaw(o))
  {
    if o.Some? {
      var front, back := TrimIsCore(o.value, RustSpaces);
    }
  }

  lemma BlankHasNoCore(s: string)
    ensures Trimmed(s) == "" <==> AllDropped(s, RustSpaces)
  {
    var front, back := TrimIsCore(s, RustSpaces);
    if Trimmed(s) != "" {
      assert s[|front|] == Trimmed(s)[0];
    }
  }

  lemma {:induction false} KeepsAddresses(uris: seq<string>)
    ensures KeptAddresses(uris, KeepUris(uris))
  {
    if uris != [] {
      KeepsAddresses(uris[1..]);
      KeepsOne(Some(uris[0]));
      BlankHasNoCore(uris[0]);
      hide KeptCore, AllDropped, Trimmed;
      var t, rest := Trimmed(uris[0]), KeepUris(uris[1..]);
      if t != "" {
        assert KeepUris(uris) == [t] + rest && ([t] + rest)[1..] == rest;
      } else {
        assert KeepUris(uris) == [] + rest == rest;
      }
    }
  }

  lemma KeepsTexts(l: seq<Option<string>>)
    ensures KeptTexts(l, KeepAll(l), false) && KeptTexts(l, KeepSsh(l), true)
  {
    forall i | 0 <= i < |l| ensures KeptCore(l[i], KeepTrimmed(l[i])) && KeptRaw(l[i], KeepRaw(l[i])) {
      KeepsOne(l[i]);
    }
    hide KeptCore, KeptRaw, KeepTrimmed, KeepRaw;
  }

  lemma NormalIsKept(x: Input)
    requires 1 <= x.cipherType <= 5 && Complete(x)
    ensures Kept(x, Normal(x))
  {
    KeepsOne(x.notes);
    forall i | 0 <= i < |x.fields|
      ensures KeptRaw(x.fields[i].name, KeepRaw(x.fields[i].name))
      ensures KeptRaw(x.fields[i].value, KeepRaw(x.fields[i].value))
    {
      KeepsOne(x.fields[i].name);
      KeepsOne(x.fields[i].value);
    }
    if x.cipherType == 1 {
      var l := x.login.value;
      KeepsOne(l.username);
      KeepsOne(l.password);
      KeepsOne(l.totp);
      KeepsAddresses(l.uris);
    } else if x.cipherType == 3 {
      KeepsTexts(x.card.value);
    } else if x.cipherType == 4 {
      KeepsTexts(x.identity.value);
    } else if x.cipherType == 5 {
      KeepsTexts(x.sshKey.value);
    }
    hide KeptRaw, KeptCore, KeptAddresses, KeptTexts, KeepRaw, KeepTrimmed, KeepUris, KeepAll, KeepSsh;
  }

  /**
   * An input is written exactly if it is of a known type and, a note apart, carries that type's data; and then reading
   * it back gives every text as it was, but for white space around those that are trimmed, and nothing for empty ones.
   */
  lemma SaveKeeps(x: Input, key: Key, id: string, draw: Draw)
    ensures Write(x, key, id, draw).Ok?
      <==> || x.cipherType == 2
           || (x.cipherType == 1 && x.login.Some?) || (x.cipherType == 3 && x.card.Some?)
           || (x.cipherType == 4 && x.identity.Some?) || (x.cipherType == 5 && x.sshKey.Some?)
    ensures Write(x, key, id, draw).UnsupportedType? <==> x.cipherType < 1 || x.cipherType > 5
    ensures Write(x, key, id, draw).Ok? ==>
      var read := Read(Write(x, key, id, draw).value, key);
      read.Ok? && Kept(x, read.value)
  {
    if Write(x, key, id, draw).Ok? {
      ReadWritten(x, key, id, draw);
      NormalIsKept(x);
      hide Kept, Normal, Read;
    }
  }

  // ------------------------------------------------ what is read of any stored item

  /** The text a reader sees, where there is one to see. */
  function SeenText(o: Option<Seen>): Option<string> {
    if o.Some? && o.value.Some? && o.value.value != "" then o.value else None
  }

  predicate SeenTexts(o: Option<seq<Option<Seen>>>, r: Option<seq<Option<string>>>) {
    && (r.Some? <==> o.Some?)
    && (o.Some? ==> |r.value| == |o.value| && forall i :: 0 <= i < |o.value| ==> r.value[i] == SeenText(o.value[i]))
  }

  predicate SeenAddresses(l: seq<Option<Seen>>, r: seq<string>) {
    if l == [] then r == []
    else if SeenText(l[0]).None? then SeenAddresses(l[1..], r)
    else r != [] && r[0] == SeenText(l[0]).value && SeenAddresses(l[1..], r[1..])
  }

  predicate SeenFields(o: Option<seq<Field<Seen>>>, r: seq<FieldInput>) {
    && (o.None? ==> r == [])
    && (o.Some? ==> |r| == |o.value| && forall i :: 0 <= i < |r| ==>
          && r[i].kind == (if o.value[i].kind.Some? then o.value[i].kind.value else 0)
          && r[i].linkedId == o.value[i].linkedId
          && r[i].name == SeenText(o.value[i].name) && r[i].value == SeenText(o.value[i].value))
  }

  predicate SeenLogin(o: Option<Login<Seen>>, r: Option<LoginInput>) {
    && (r.Some? <==> o.Some?)
    && (o.Some? ==>
          var l, x := o.value, r.value;
          && x.username == SeenText(l.username) && x.password == SeenText(l.password) && x.totp == SeenText(l.totp)
          && SeenAddresses(if l.uris.Some? then l.uris.value else [], x.uris))
  }

  /** The copy is filled in with what a reader sees; absent lists count as empty, a field without a kind as text. */
  predicate FilledIn(seen: Item<Seen>, y: Input) {
    && seen.name == Some(y.name) && y.notes == SeenText(seen.notes) && SeenLogin(seen.login, y.login)
    && SeenTexts(seen.card, y.card) && SeenTexts(seen.identity, y.identity) && SeenTexts(seen.sshKey, y.sshKey)
    && SeenFields(seen.fields, y.fields)
  }

  /** And the rest is the original's: kind, folder, owner, mark as favourite, demand for the master password. */
  predicate Alike(c: Cipher, y: Input) {
    && y.folderId == c.folderId && y.favorite == c.favorite && y.organizationId == c.organizationId
    && (y.reprompt <==> c.reprompt.Some? && c.reprompt.value != 0)
    && match c.kind
       case LoginKind => y.cipherType == 1 case SecureNote => y.cipherType == 2 case CardKind => y.cipherType == 3
       case IdentityKind => y.cipherType == 4 case SshKind => y.cipherType == 5
  }

  lemma DecSees(o: Option<Secret>, key: Key)
    ensures Dec(o, key) == SeenText(SeeOpt(o, key))
  {
  }

  lemma ListSees(o: Option<seq<Option<Secret>>>, key: Key)
    ensures SeenTexts(SeeList(o, key), if o.Some? then Some(DecList(o.value, key)) else None)
  {
    if o.Some? {
      forall i | 0 <= i < |o.value| ensures Dec(o.value[i], key) == SeenText(SeeOpt(o.value[i], key)) {
        DecSees(o.value[i], key);
      }
      hide Dec, SeenText, SeeOpt;
    }
  }

  lemma {:induction false} AddressesSee(l: seq<Option<Secret>>, key: Key)
    ensures SeenAddresses(SeeAll(l, key), DecUris(l, key))
  {
    if l != [] {
      AddressesSee(l[1..], key);
      DecSees(l[0], key);
      hide Dec, SeenText, SeeOpt;
      assert SeeAll(l, key)[1..] == SeeAll(l[1..], key);
      var rest := DecUris(l[1..], key);
      if Dec(l[0], key).Some? {
        assert DecUris(l, key) == [Dec(l[0], key).value] + rest && ([Dec(l[0], key).value] + rest)[1..] == rest;
      } else {
        assert DecUris(l, key) == [] + rest == rest;
      }
    }
  }

  lemma LoginSees(o: Option<Login<Secret>>, key: Key)
    ensures SeenLogin(
      if o.Some? then Some(SeeLogin(o.value, key)) else None, if o.Some? then Some(DecLogin(o.value, key)) else None)
  {
    if o.Some? {
      var l := o.value;
      DecSees(l.username, key);
      DecSees(l.password, key);
      DecSees(l.totp, key);
      if l.uris.Some? {
        AddressesSee(l.uris.value, key);
      }
    }
    hide Dec, SeenText, SeeOpt, SeeAll;
  }

  lemma FieldsSee(o: Option<seq<Field<Secret>>>, key: Key)
    ensures SeenFields(
      if o.Some? then Some(SeeFields(o.value, key)) else None, DecFields(if o.Some? then o.value else [], key))
  {
    if o.Some? {
      forall i | 0 <= i < |o.value|
        ensures Dec(o.value[i].name, key) == SeenText(SeeOpt(o.value[i].name, key))
        ensures Dec(o.value[i].value, key) == SeenText(SeeOpt(o.value[i].value, key))
      {
        DecSees(o.value[i].name, key);
        DecSees(o.value[i].value, key);
      }
    }
    hide Dec, SeenText, SeeOpt;
  }

  /** A stored item, whoever wrote it, can be copied exactly if its name opens; the copy holds what a reader sees. */
  lemma ReadSees(c: Cipher, key: Key)
    ensures Read(c, key).Ok? <==> See(c.item, key).name.Some?
    ensures Read(c, key).Ok? ==> FilledIn(See(c.item, key), Read(c, key).value) && Alike(c, Read(c, key).value)
  {
    var item := c.item;
    hide Dec, SeenText, SeeOpt, SeeList, SeenTexts, SeenAddresses, SeenFields, SeenLogin, DecLogin, DecList, DecFields;
    hide ReadText, SeeLogin, SeeFields, SeeHistory;
    DecSees(item.notes, key);
    ListSees(item.card, key);
    ListSees(item.identity, key);
    ListSees(item.sshKey, key);
    LoginSees(item.login, key);
    FieldsSee(item.fields, key);
  }
}
