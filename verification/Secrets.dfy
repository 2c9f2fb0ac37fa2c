/**
 * Keys and encrypted items, symbolically: a ciphertext opens only under the key it was made with. Key resolution is
 * that of src-tauri/core/src/services/cipher.rs, the primitives are those of src-tauri/core/src/crypto.rs.
 */
module Secrets {
  import opened Optional

  /** What a key derivation function is really run with. */
  datatype Kdf = Pbkdf2(iterations: nat) | Argon2id(kib: nat, iterations: nat, parallelism: nat)

  datatype Key = Raw(id: nat) | Derived(password: string, salt: seq<nat>, kdf: Kdf)

  /** What a ciphertext may hide: readable text, the 64 bytes of a key, or neither. */
  datatype Content = Text(text: string) | KeyBytes(key: Key) | Other

  /** An encrypted string. `Rsa` and `Unparsable` never open under a symmetric key. */
  datatype Enc<+P> = Sym(key: Key, iv: nat, plain: P) | Rsa | Unparsable

  type Secret = Enc<Content>

  function Decrypt<P>(e: Enc<P>, key: Key): Option<P> {
    if e.Sym? && e.key == key then Some(e.plain) else None
  }

  /** `decrypt_name`: the text, if the key fits and there is text. */
  function ReadText(e: Secret, key: Key): Option<string> {
    var content := Decrypt(e, key);
    if content.Some? && content.value.Text? then Some(content.value.text) else None
  }

  /** `decrypt_cipher_key`. */
  function ReadKey(e: Secret, key: Key): Option<Key> {
    var content := Decrypt(e, key);
    if content.Some? && content.value.KeyBytes? then Some(content.value.key) else None
  }

  /** `encrypt_string`, with the initialisation vector it happens to draw. */
  function EncryptText(text: string, key: Key, iv: nat): Secret {
    Sym(key, iv, Text(text))
  }

  /** `reencrypt_with_key`. */
  function Reencrypt(e: Secret, from: Key, to: Key, iv: nat): Option<Secret> {
    var text := ReadText(e, from);
    if text.Some? then Some(EncryptText(text.value, to, iv)) else None
  }

  // -------------------------------------------------------------------- items

  datatype Place =
    | Name | Notes | Username | Password | Totp | Uri | CardField | IdentityField | SshField
    | FieldName | FieldValue | History | ItemKey | FolderName | CollectionName

  /** Where one encryption happens, so that each draws its own vector. */
  datatype Slot = Slot(item: nat, place: Place, index: nat)

  type Draw = Slot -> nat

  /** The encrypted part of a cipher; `S` is a ciphertext in storage, or what a reader sees in its place. */
  datatype Item<S> = Item(
    name: S, notes: Option<S>, login: Option<Login<S>>,
    card: Option<seq<Option<S>>>, identity: Option<seq<Option<S>>>, sshKey: Option<seq<Option<S>>>,
    fields: Option<seq<Field<S>>>, history: Option<seq<Entry<S>>>)

  datatype Login<S> = Login(username: Option<S>, password: Option<S>, totp: Option<S>, uris: Option<seq<Option<S>>>)
  datatype Field<S> = Field(kind: Option<nat>, name: Option<S>, value: Option<S>, linkedId: Option<nat>)
  datatype Entry<S> = Entry(lastUsed: Option<string>, password: Option<S>)

  // ------------------------------------------------------------------ reading

  type Seen = Option<string>

  function SeeOpt(o: Option<Secret>, key: Key): Option<Seen> {
    if o.Some? then Some(ReadText(o.value, key)) else None
  }

  function SeeAll(l: seq<Option<Secret>>, key: Key): (r: seq<Option<Seen>>)
    ensures |r| == |l|
    ensures forall i :: 0 <= i < |l| ==> r[i] == SeeOpt(l[i], key)
  {
    seq(|l|, i requires 0 <= i < |l| => SeeOpt(l[i], key))
  }

  function SeeList(o: Option<seq<Option<Secret>>>, key: Key): Option<seq<Option<Seen>>> {
    if o.Some? then Some(SeeAll(o.value, key)) else None
  }

  function SeeField(f: Field<Secret>, key: Key): Field<Seen> {
    Field(f.kind, SeeOpt(f.name, key), SeeOpt(f.value, key), f.linkedId)
  }

  function SeeFields(l: seq<Field<Secret>>, key: Key): (r: seq<Field<Seen>>)
    ensures |r| == |l|
    ensures forall i :: 0 <= i < |l| ==> r[i] == SeeField(l[i], key)
  {
    seq(|l|, i requires 0 <= i < |l| => SeeField(l[i], key))
  }

  function SeeEntry(e: Entry<Secret>, key: Key): Entry<Seen> {
    Entry(e.lastUsed, SeeOpt(e.password, key))
  }

  function SeeHistory(l: seq<Entry<Secret>>, key: Key): (r: seq<Entry<Seen>>)
    ensures |r| == |l|
    ensures forall i :: 0 <= i < |l| ==> r[i] == SeeEntry(l[i], key)
  {
    seq(|l|, i requires 0 <= i < |l| => SeeEntry(l[i], key))
  }

  function SeeLogin(l: Login<Secret>, key: Key): Login<Seen> {
    Login(SeeOpt(l.username, key), SeeOpt(l.password, key), SeeOpt(l.totp, key), SeeList(l.uris, key))
  }

  /** What a reader holding `key` sees of an item; a field that does not open shows as absent text. */
  function See(item: Item<Secret>, key: Key): Item<Seen> {
    Item(
      ReadText(item.name, key), SeeOpt(item.notes, key),
      if item.login.Some? then Some(SeeLogin(item.login.value, key)) else None,
      SeeList(item.card, key), SeeList(item.identity, key), SeeList(item.sshKey, key),
      if item.fields.Some? then Some(SeeFields(item.fields.value, key)) else None,
      if item.history.Some? then Some(SeeHistory(item.history.value, key)) else None)
  }

  // ---------------------------------------------------------------- readability

  predicate OptReadable(o: Option<Secret>, key: Key) {
    o.Some? ==> ReadText(o.value, key).Some?
  }

  predicate ListReadable(o: Option<seq<Option<Secret>>>, key: Key) {
    o.Some? ==> forall i :: 0 <= i < |o.value| ==> OptReadable(o.value[i], key)
  }

  predicate LoginReadable(l: Login<Secret>, key: Key) {
    OptReadable(l.username, key) && OptReadable(l.password, key) && OptReadable(l.totp, key)
      && ListReadable(l.uris, key)
  }

  predicate FieldsReadable(l: seq<Field<Secret>>, key: Key) {
    forall i :: 0 <= i < |l| ==> OptReadable(l[i].name, key) && OptReadable(l[i].value, key)
  }

  predicate HistoryReadable(l: seq<Entry<Secret>>, key: Key) {
    forall i :: 0 <= i < |l| ==> OptReadable(l[i].password, key)
  }

  /** Every ciphertext of the item opens to text. */
  predicate Readable(item: Item<Secret>, key: Key) {
    && ReadText(item.name, key).Some? && OptReadable(item.notes, key)
    && (item.login.Some? ==> LoginReadable(item.login.value, key))
    && ListReadable(item.card, key) && ListReadable(item.identity, key) && ListReadable(item.sshKey, key)
    && (item.fields.Some? ==> FieldsReadable(item.fields.value, key))
    && (item.history.Some? ==> HistoryReadable(item.history.value, key))
  }

  // ---------------------------------------------------------------- re-keying

  /** `collect::<Result<Vec<_>>>()`: all of them, or nothing. */
  function Collect<T>(all: seq<Option<T>>): (r: Option<seq<T>>)
    ensures r.Some? <==> forall i :: 0 <= i < |all| ==> all[i].Some?
    ensures r.Some? ==> |r.value| == |all|
    ensures r.Some? ==> forall i :: 0 <= i < |all| ==> r.value[i] == all[i].value
  {
    if all == [] then Some([])
    else
      var front := Collect(all[..|all| - 1]);
      if front.Some? && all[|all| - 1].Some? then Some(front.value + [all[|all| - 1].value]) else None
  }

  /** `transpose`, where there is a value: a failed attempt at it fails, a successful one is a value. */
  function Attempted<T>(attempt: Option<T>): Option<Option<T>> {
    if attempt.Some? then Some(attempt) else None
  }

  /** One field carried from key to key. Absent stays absent; a field that does not open fails. */
  function RekeyOpt(o: Option<Secret>, from: Key, to: Key, iv: nat): Option<Option<Secret>> {
    if o.None? then Some(None) else Attempted(Reencrypt(o.value, from, to, iv))
  }

  function RekeyEach(
    l: seq<Option<Secret>>, from: Key, to: Key, n: nat, place: Place, draw: Draw): (r: seq<Option<Option<Secret>>>)
    ensures |r| == |l|
    ensures forall i :: 0 <= i < |l| ==> r[i] == RekeyOpt(l[i], from, to, draw(Slot(n, place, i)))
  {
    seq(|l|, i requires 0 <= i < |l| => RekeyOpt(l[i], from, to, draw(Slot(n, place, i))))
  }

  function RekeyList(o: Option<seq<Option<Secret>>>, from: Key, to: Key, n: nat, place: Place, draw: Draw):
    Option<Option<seq<Option<Secret>>>>
  {
    if o.None? then Some(None) else Attempted(Collect(RekeyEach(o.value, from, to, n, place, draw)))
  }

  function RekeyLogin(l: Login<Secret>, from: Key, to: Key, n: nat, draw: Draw): Option<Login<Secret>> {
    var username := RekeyOpt(l.username, from, to, draw(Slot(n, Username, 0)));
    var password := RekeyOpt(l.password, from, to, draw(Slot(n, Password, 0)));
    var totp := RekeyOpt(l.totp, from, to, draw(Slot(n, Totp, 0)));
    var uris := RekeyList(l.uris, from, to, n, Uri, draw);
    if username.Some? && password.Some? && totp.Some? && uris.Some?
    then Some(Login(username.value, password.value, totp.value, uris.value))
    else None
  }

  function RekeyField(f: Field<Secret>, from: Key, to: Key, n: nat, i: nat, draw: Draw): Option<Field<Secret>> {
    var name := RekeyOpt(f.name, from, to, draw(Slot(n, FieldName, i)));
    var value := RekeyOpt(f.value, from, to, draw(Slot(n, FieldValue, i)));
    if name.Some? && value.Some? then Some(Field(f.kind, name.value, value.value, f.linkedId)) else None
  }

  function RekeyFields(l: seq<Field<Secret>>, from: Key, to: Key, n: nat, draw: Draw): Option<seq<Field<Secret>>> {
    Collect(seq(|l|, i requires 0 <= i < |l| => RekeyField(l[i], from, to, n, i, draw)))
  }

  function RekeyEntry(e: Entry<Secret>, from: Key, to: Key, n: nat, i: nat, draw: Draw): Option<Entry<Secret>> {
    var password := RekeyOpt(e.password, from, to, draw(Slot(n, History, i)));
    if password.Some? then Some(Entry(e.lastUsed, password.value)) else None
  }

  function RekeyHistory(l: seq<Entry<Secret>>, from: Key, to: Key, n: nat, draw: Draw): Option<seq<Entry<Secret>>> {
    Collect(seq(|l|, i requires 0 <= i < |l| => RekeyEntry(l[i], from, to, n, i, draw)))
  }

  /** Every field of item number `n` of the vault, carried from key to key; the first that fails ends it. */
  function RekeyItem(item: Item<Secret>, from: Key, to: Key, n: nat, draw: Draw): Option<Item<Secret>> {
    var name := Reencrypt(item.name, from, to, draw(Slot(n, Name, 0)));
    var notes := RekeyOpt(item.notes, from, to, draw(Slot(n, Notes, 0)));
    var login := if item.login.None? then Some(None) else Attempted(RekeyLogin(item.login.value, from, to, n, draw));
    var card := RekeyList(item.card, from, to, n, CardField, draw);
    var identity := RekeyList(item.identity, from, to, n, IdentityField, draw);
    var sshKey := RekeyList(item.sshKey, from, to, n, SshField, draw);
    var fields := if item.fields.None? then Some(None)
      else Attempted(RekeyFields(item.fields.value, from, to, n, draw));
    var history :=
      if item.history.None? then Some(None) else Attempted(RekeyHistory(item.history.value, from, to, n, draw));
    if name.None? || notes.None? || login.None? || card.None? || identity.None? || sshKey.None? || fields.None?
       || history.None?
    then None
    else Some(Item(
      name.value, notes.value, login.value, card.value, identity.value, sshKey.value, fields.value, history.value))
  }

  lemma RekeyedOpt(o: Option<Secret>, from: Key, to: Key, iv: nat)
    ensures var r := RekeyOpt(o, from, to, iv);
      && (r.Some? <==> OptReadable(o, from))
      && (r.Some? ==> SeeOpt(r.value, to) == SeeOpt(o, from) && OptReadable(r.value, to))
  {
  }

  lemma RekeyedList(o: Option<seq<Option<Secret>>>, from: Key, to: Key, n: nat, place: Place, draw: Draw)
    ensures var r := RekeyList(o, from, to, n, place, draw);
      && (r.Some? <==> ListReadable(o, from))
      && (r.Some? ==> SeeList(r.value, to) == SeeList(o, from) && ListReadable(r.value, to))
      && (r.Some? ==> (r.value.Some? <==> o.Some?))
  {
    if o.Some? {
      hide RekeyOpt, OptReadable, SeeOpt, Collect;
      var all := RekeyEach(o.value, from, to, n, place, draw);
      forall i | 0 <= i < |o.value|
        ensures all[i].Some? <==> OptReadable(o.value[i], from)
        ensures all[i].Some? ==> SeeOpt(all[i].value, to) == SeeOpt(o.value[i], from) && OptReadable(all[i].value, to)
      {
        RekeyedOpt(o.value[i], from, to, draw(Slot(n, place, i)));
      }
      if Collect(all).Some? {
        assert SeeAll(Collect(all).value, to) == SeeAll(o.value, from);
      }
    }
  }

  lemma RekeyedLogin(l: Login<Secret>, from: Key, to: Key, n: nat, draw: Draw)
    ensures var r := RekeyLogin(l, from, to, n, draw);
      && (r.Some? <==> LoginReadable(l, from))
      && (r.Some? ==> SeeLogin(r.value, to) == SeeLogin(l, from) && LoginReadable(r.value, to))
  {
    hide RekeyOpt, RekeyList, OptReadable, ListReadable, SeeOpt, SeeList;
    RekeyedOpt(l.username, from, to, draw(Slot(n, Username, 0)));
    RekeyedOpt(l.password, from, to, draw(Slot(n, Password, 0)));
    RekeyedOpt(l.totp, from, to, draw(Slot(n, Totp, 0)));
    RekeyedList(l.uris, from, to, n, Uri, draw);
  }

  lemma RekeyedFields(l: seq<Field<Secret>>, from: Key, to: Key, n: nat, draw: Draw)
    ensures var r := RekeyFields(l, from, to, n, draw);
      && (r.Some? <==> FieldsReadable(l, from))
      && (r.Some? ==> SeeFields(r.value, to) == SeeFields(l, from) && FieldsReadable(r.value, to))
  {
    hide RekeyOpt, OptReadable, SeeOpt, Collect;
    var all := seq(|l|, i requires 0 <= i < |l| => RekeyField(l[i], from, to, n, i, draw));
    forall i | 0 <= i < |l|
      ensures all[i].Some? <==> OptReadable(l[i].name, from) && OptReadable(l[i].value, from)
      ensures all[i].Some? ==>
        && SeeField(all[i].value, to) == SeeField(l[i], from)
        && OptReadable(all[i].value.name, to) && OptReadable(all[i].value.value, to)
    {
      RekeyedOpt(l[i].name, from, to, draw(Slot(n, FieldName, i)));
      RekeyedOpt(l[i].value, from, to, draw(Slot(n, FieldValue, i)));
    }
    if Collect(all).Some? {
      assert SeeFields(Collect(all).value, to) == SeeFields(l, from);
    }
  }

  lemma RekeyedHistory(l: seq<Entry<Secret>>, from: Key, to: Key, n: nat, draw: Draw)
    ensures var r := RekeyHistory(l, from, to, n, draw);
      && (r.Some? <==> HistoryReadable(l, from))
      && (r.Some? ==> SeeHistory(r.value, to) == SeeHistory(l, from) && HistoryReadable(r.value, to))
  {
    hide RekeyOpt, OptReadable, SeeOpt, Collect;
    var all := seq(|l|, i requires 0 <= i < |l| => RekeyEntry(l[i], from, to, n, i, draw));
    forall i | 0 <= i < |l|
      ensures all[i].Some? <==> OptReadable(l[i].password, from)
      ensures all[i].Some? ==>
        SeeEntry(all[i].value, to) == SeeEntry(l[i], from) && OptReadable(all[i].value.password, to)
    {
      RekeyedOpt(l[i].password, from, to, draw(Slot(n, History, i)));
    }
    if Collect(all).Some? {
      assert SeeHistory(Collect(all).value, to) == SeeHistory(l, from);
    }
  }

  lemma RekeyExactly(item: Item<Secret>, from: Key, to: Key, n: nat, draw: Draw)
    ensures RekeyItem(item, from, to, n, draw).Some? <==> Readable(item, from)
  {
    hide RekeyOpt, RekeyList, RekeyLogin, RekeyFields, RekeyHistory,
      OptReadable, ListReadable, LoginReadable, FieldsReadable, HistoryReadable;
    RekeyedOpt(item.notes, from, to, draw(Slot(n, Notes, 0)));
    RekeyedList(item.card, from, to, n, CardField, draw);
    RekeyedList(item.identity, from, to, n, IdentityField, draw);
    RekeyedList(item.sshKey, from, to, n, SshField, draw);
    if item.login.Some? {
      RekeyedLogin(item.login.value, from, to, n, draw);
    }
    if item.fields.Some? {
      RekeyedFields(item.fields.value, from, to, n, draw);
    }
    if item.history.Some? {
      RekeyedHistory(item.history.value, from, to, n, draw);
    }
  }

  lemma RekeyedReads(item: Item<Secret>, from: Key, to: Key, n: nat, draw: Draw)
    requires RekeyItem(item, from, to, n, draw).Some?
    ensures See(RekeyItem(item, from, to, n, draw).value, to) == See(item, from)
  {
    hide RekeyOpt, RekeyList, RekeyLogin, RekeyFields, RekeyHistory, SeeOpt, SeeList, SeeLogin, SeeFields, SeeHistory,
      OptReadable, ListReadable, LoginReadable, FieldsReadable, HistoryReadable;
    RekeyedOpt(item.notes, from, to, draw(Slot(n, Notes, 0)));
    RekeyedList(item.card, from, to, n, CardField, draw);
    RekeyedList(item.identity, from, to, n, IdentityField, draw);
    RekeyedList(item.sshKey, from, to, n, SshField, draw);
    if item.login.Some? {
      RekeyedLogin(item.login.value, from, to, n, draw);
    }
    if item.fields.Some? {
      RekeyedFields(item.fields.value, from, to, n, draw);
    }
    if item.history.Some? {
      RekeyedHistory(item.history.value, from, to, n, draw);
    }
  }

  /** Re-keying goes through exactly when every field opens, and then changes nothing a reader sees. */
  lemma RekeyKeepsView(item: Item<Secret>, from: Key, to: Key, n: nat, draw: Draw)
    ensures var r := RekeyItem(item, from, to, n, draw);
      && (r.Some? <==> Readable(item, from))
      && (r.Some? ==> See(r.value, to) == See(item, from))
  {
    RekeyExactly(item, from, to, n, draw);
    hide RekeyItem, Readable, See;
    if RekeyItem(item, from, to, n, draw).Some? {
      RekeyedReads(item, from, to, n, draw);
    }
  }

  // --------------------------------------------------------------- whose key

  datatype Kind = LoginKind | SecureNote | CardKind | IdentityKind | SshKind

  datatype Cipher = Cipher(
    id: string, kind: Kind, key: Option<Secret>, item: Item<Secret>,
    organizationId: Option<string>, folderId: Option<string>, collectionIds: seq<string>,
    revisionDate: Option<string>, deletedDate: Option<string>, favorite: bool, reprompt: Option<nat>,
    attachments: Option<seq<string>>)

  type OrgKeys = map<string, Key>

  /** `owning_key`. */
  function OwningKey(c: Cipher, userKey: Key, orgKeys: OrgKeys): Key {
    if c.organizationId.Some? && c.organizationId.value in orgKeys then orgKeys[c.organizationId.value] else userKey
  }

  /** `item_key`: the item's own key, if it has one that opens. */
  function UnwrappedKey(c: Cipher, owner: Key): Option<Key> {
    if c.key.Some? then ReadKey(c.key.value, owner) else None
  }

  /** The key the fields are under, as a reader resolves it. */
  function FieldKey(c: Cipher, userKey: Key, orgKeys: OrgKeys): Key {
    var owner := OwningKey(c, userKey, orgKeys);
    if UnwrappedKey(c, owner).Some? then UnwrappedKey(c, owner).value else owner
  }

  /** What a reader with these keys sees. */
  function View(c: Cipher, userKey: Key, orgKeys: OrgKeys): Item<Seen> {
    See(c.item, FieldKey(c, userKey, orgKeys))
  }

  /**
   * A reader with the owner's key sees an item through the item's own key if that is wrapped for the owner, and through
   * the owner's otherwise; the owner is the organization whose key is known, or else the user.
   */
  lemma ViewGoesThrough(c: Cipher, userKey: Key, orgKeys: OrgKeys, owner: Key, iv: nat, own: Key)
    requires var org := c.organizationId;
      owner == if org.Some? && org.value in orgKeys then orgKeys[org.value] else userKey
    ensures c.key == Some(Sym(owner, iv, KeyBytes(own))) ==> View(c, userKey, orgKeys) == See(c.item, own)
    ensures c.key == None || c.key == Some(Rsa) || c.key == Some(Unparsable) ==>
      View(c, userKey, orgKeys) == See(c.item, owner)
    ensures c.key.Some? && c.key.value.Sym? && (c.key.value.key != owner || !c.key.value.plain.KeyBytes?) ==>
      View(c, userKey, orgKeys) == See(c.item, owner)
  {
    hide See;
  }

  /** Nothing is kept from a reader: every list is seen entry for entry. */
  lemma SeesEveryEntry(item: Item<Secret>, key: Key, i: nat)
    ensures var seen := See(item, key);
      && (seen.fields.Some? <==> item.fields.Some?) && (seen.history.Some? <==> item.history.Some?)
      && (item.fields.Some? ==> |seen.fields.value| == |item.fields.value|)
      && (item.history.Some? ==> |seen.history.value| == |item.history.value|)
      && (item.fields.Some? && i < |item.fields.value| ==>
            var f, r := item.fields.value[i], seen.fields.value[i];
            && r.kind == f.kind && r.linkedId == f.linkedId
            && r.name == SeeOpt(f.name, key) && r.value == SeeOpt(f.value, key))
      && (item.history.Some? && i < |item.history.value| ==>
            var e, r := item.history.value[i], seen.history.value[i];
            r.lastUsed == e.lastUsed && r.password == SeeOpt(e.password, key))
  {
    hide SeeOpt, SeeList, SeeLogin, ReadText;
  }
}
