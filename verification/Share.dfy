/** Sharing an item with an organization: `build_share_cipher_body` of src-tauri/core/src/services/cipher.rs. */
module Share {
  import opened Optional
  import opened Secrets

  /** The request body, as far as it says what is stored. */
  datatype Body = Body(
    kind: Kind, key: Option<Secret>, item: Item<Secret>, organizationId: string, favorite: bool, reprompt: nat,
    collectionIds: seq<string>)

  // ------------------------------------------------- addresses without a value

  /** `filter_map` over the list: absent entries go. */
  function Present<T>(l: seq<Option<T>>): (r: seq<Option<T>>)
    ensures forall i :: 0 <= i < |r| ==> r[i].Some? && r[i] in l
  {
    if l == [] then [] else (if l[0].Some? then [l[0]] else []) + Present(l[1..])
  }

  /** A share always writes a list of addresses, without the absent ones. */
  function PresentUris<S>(item: Item<S>): Item<S> {
    if item.login.None? then item
    else
      var l := item.login.value;
      item.(login := Some(l.(uris := Some(Present(if l.uris.Some? then l.uris.value else [])))))
  }

  /** In order, the entries that are there, and no others. */
  predicate JustPresent<T(==)>(l: seq<Option<T>>, r: seq<Option<T>>) {
    if l == [] then r == []
    else if l[0].None? then JustPresent(l[1..], r)
    else r != [] && r[0] == l[0] && JustPresent(l[1..], r[1..])
  }

  lemma {:induction false} PresentAreJust<T>(l: seq<Option<T>>)
    ensures JustPresent(l, Present(l))
  {
    if l != [] {
      PresentAreJust(l[1..]);
      assert l == [l[0]] + l[1..];
      PresentCons(l[0], l[1..]);
      hide Present;
      if l[0].Some? {
        assert ([l[0]] + Present(l[1..]))[1..] == Present(l[1..]);
      }
    }
  }

  /** Nothing is different but the addresses of a login, of which just those with a value are left. */
  ghost predicate ValuelessGone<S>(before: Item<S>, after: Item<S>) {
    && after == before.(login := after.login) && (after.login.Some? <==> before.login.Some?)
    && (before.login.Some? ==>
          var l, r := before.login.value, after.login.value;
          && r == l.(uris := r.uris) && r.uris.Some?
          && JustPresent(if l.uris.Some? then l.uris.value else [], r.uris.value))
  }

  lemma PresentUrisLeft<S>(item: Item<S>)
    ensures ValuelessGone(item, PresentUris(item))
  {
    if item.login.Some? {
      PresentAreJust(if item.login.value.uris.Some? then item.login.value.uris.value else []);
      hide Present, JustPresent;
    }
  }

  lemma SeeCons(o: Option<Secret>, l: seq<Option<Secret>>, key: Key)
    ensures SeeAll([o] + l, key) == [SeeOpt(o, key)] + SeeAll(l, key)
    ensures ListReadable(Some([o] + l), key) <==> OptReadable(o, key) && ListReadable(Some(l), key)
  {
    hide SeeOpt, OptReadable;
    if ListReadable(Some([o] + l), key) {
      assert OptReadable(([o] + l)[0], key);
      forall i | 0 <= i < |l| ensures OptReadable(l[i], key) {
        assert ([o] + l)[i + 1] == l[i];
      }
    }
  }

  lemma SeenAsPresent(o: Option<Secret>, key: Key)
    ensures SeeOpt(o, key).Some? <==> o.Some?
    ensures o.None? ==> OptReadable(o, key)
  {
  }

  lemma PresentCons<T>(o: Option<T>, l: seq<Option<T>>)
    ensures Present([o] + l) == if o.Some? then [o] + Present(l) else Present(l)
  {
    assert ([o] + l)[1..] == l;
  }

  lemma {:induction false} SeePresent(l: seq<Option<Secret>>, key: Key)
    ensures SeeAll(Present(l), key) == Present(SeeAll(l, key))
    ensures ListReadable(Some(Present(l)), key) <==> ListReadable(Some(l), key)
  {
    if l != [] {
      hide *;
      var o, rest := l[0], l[1..];
      SeePresent(rest, key);
      assert l == [o] + rest;
      PresentCons(o, rest);
      PresentCons(SeeOpt(o, key), SeeAll(rest, key));
      SeenAsPresent(o, key);
      SeeCons(o, rest, key);
      SeeCons(o, Present(rest), key);
    }
  }

  lemma SeePresentUris(item: Item<Secret>, key: Key)
    ensures See(PresentUris(item), key) == PresentUris(See(item, key))
    ensures Readable(PresentUris(item), key) <==> Readable(item, key)
  {
    if item.login.Some? && item.login.value.uris.Some? {
      SeePresent(item.login.value.uris.value, key);
    } else {
      assert SeeAll([], key) == [];
    }
  }

  // ------------------------------------------------------------------ the body

  /** The sub-object the declared type calls for; a note needs none. */
  predicate HasData<S>(kind: Kind, item: Item<S>) {
    match kind
    case LoginKind => item.login.Some?
    case SecureNote => true
    case CardKind => item.card.Some?
    case IdentityKind => item.identity.Some?
    case SshKind => item.sshKey.Some?
  }

  /**
   * An item with its own key keeps its fields under that key and only re-wraps the key; any other item has every field
   * re-encrypted from the source key to the target key.
   */
  function BuildBody(
    c: Cipher, source: Key, target: Key, org: string, collectionIds: seq<string>, draw: Draw): Option<Body> {
    var own := UnwrappedKey(c, source);
    var from, to := if own.Some? then own.value else source, if own.Some? then own.value else target;
    var wrapped := if own.Some? then Some(Sym(target, draw(Slot(0, ItemKey, 0)), KeyBytes(own.value))) else None;
    var item := RekeyItem(PresentUris(c.item), from, to, 0, draw);
    if item.None? || !HasData(c.kind, item.value) then None
    else Some(Body(
      c.kind, wrapped, item.value, org, c.favorite, if c.reprompt.Some? then c.reprompt.value else 0, collectionIds))
  }

  /** The server replaces the stored item by the body; a folder does not follow an item into an organization. */
  function Stored(c: Cipher, b: Body): Cipher {
    c.(kind := b.kind, key := b.key, item := b.item, organizationId := Some(b.organizationId), folderId := None,
       collectionIds := b.collectionIds, favorite := b.favorite, reprompt := Some(b.reprompt))
  }

  /**
   * A share is possible exactly when the item is readable and carries the data its type calls for: a login, a card, an
   * identity or an SSH key; a note carries none.
   */
  lemma ShareSucceeds(
    c: Cipher, userKey: Key, orgKeys: OrgKeys, target: Key, org: string, collectionIds: seq<string>, draw: Draw)
    ensures BuildBody(c, OwningKey(c, userKey, orgKeys), target, org, collectionIds, draw).Some?
      <==> && Readable(c.item, FieldKey(c, userKey, orgKeys))
           && (c.kind == LoginKind ==> c.item.login.Some?) && (c.kind == CardKind ==> c.item.card.Some?)
           && (c.kind == IdentityKind ==> c.item.identity.Some?) && (c.kind == SshKind ==> c.item.sshKey.Some?)
  {
    var source := OwningKey(c, userKey, orgKeys);
    var own := UnwrappedKey(c, source);
    var from, to := FieldKey(c, userKey, orgKeys), if own.Some? then own.value else target;
    SeePresentUris(c.item, from);
    RekeyKeepsView(PresentUris(c.item), from, to, 0, draw);
    hide Readable, See, RekeyItem;
    SeenHasData(c.kind, PresentUris(c.item), from);
    var item := RekeyItem(PresentUris(c.item), from, to, 0, draw);
    if item.Some? {
      SeenHasData(c.kind, item.value, to);
    }
  }

  /** A reader sees which data are there, readable or not. */
  lemma SeenHasData(kind: Kind, item: Item<Secret>, key: Key)
    ensures HasData(kind, See(item, key)) <==> HasData(kind, item)
  {
  }

  /**
   * After the share, anyone holding the organization's key sees what the owner saw, on both paths: with an item key and
   * without one. Only address entries without a value are gone.
   */
  lemma ShareKeepsView(
    c: Cipher, userKey: Key, orgKeys: OrgKeys, target: Key, org: string, collectionIds: seq<string>, draw: Draw,
    otherUser: Key, otherOrgKeys: OrgKeys)
    requires org in otherOrgKeys && otherOrgKeys[org] == target
    requires BuildBody(c, OwningKey(c, userKey, orgKeys), target, org, collectionIds, draw).Some?
    ensures var shared := Stored(c, BuildBody(c, OwningKey(c, userKey, orgKeys), target, org, collectionIds,
      draw).value);
      && ValuelessGone(View(c, userKey, orgKeys), View(shared, otherUser, otherOrgKeys))
      && (shared.key.Some? <==> UnwrappedKey(c, OwningKey(c, userKey, orgKeys)).Some?)
      && (shared.key.Some? ==> FieldKey(shared, otherUser, otherOrgKeys) == FieldKey(c, userKey, orgKeys))
  {
    var source := OwningKey(c, userKey, orgKeys);
    var own := UnwrappedKey(c, source);
    var from, to := FieldKey(c, userKey, orgKeys), if own.Some? then own.value else target;
    SeePresentUris(c.item, from);
    PresentUrisLeft(View(c, userKey, orgKeys));
    RekeyKeepsView(PresentUris(c.item), from, to, 0, draw);
    hide Readable, See, RekeyItem, PresentUris, ValuelessGone;
    var shared := Stored(c, BuildBody(c, source, target, org, collectionIds, draw).value);
    assert FieldKey(shared, otherUser, otherOrgKeys) == to;
  }

  /**
   * What the organization gets beside the fields: the item as it was, under its own id, with its kind, its mark as a
   * favourite and the owner's demand for the master password, in that organization, in the chosen collections, and in
   * no folder. An item that never said whether it asks for the master password says from then on that it does not.
   */
  lemma ShareKeepsRest(c: Cipher, source: Key, target: Key, org: string, collectionIds: seq<string>, draw: Draw)
    requires BuildBody(c, source, target, org, collectionIds, draw).Some?
    ensures var shared := Stored(c, BuildBody(c, source, target, org, collectionIds, draw).value);
      shared == c.(key := shared.key, item := shared.item, organizationId := Some(org), folderId := None,
        collectionIds := collectionIds, reprompt := if c.reprompt == None then Some(0) else c.reprompt)
  {
    hide RekeyItem, PresentUris, UnwrappedKey, HasData;
  }

  /** An item key that no longer opens falls back to the owner's key, and the share then drops the key. */
  lemma BrokenItemKeyIsDropped(c: Cipher, source: Key, target: Key, org: string, collectionIds: seq<string>, draw: Draw)
    requires c.key.Some? && ReadKey(c.key.value, source).None?
    ensures BuildBody(c, source, target, org, collectionIds, draw).Some? ==>
      BuildBody(c, source, target, org, collectionIds, draw).value.key == None && Readable(c.item, source)
  {
    SeePresentUris(c.item, source);
    RekeyKeepsView(PresentUris(c.item), source, target, 0, draw);
    hide Readable, See, RekeyItem, PresentUris;
  }
}
