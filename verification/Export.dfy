/** The encrypted vault export: src-tauri/core/src/export.rs. */
module Export {
  import opened Optional
  import opened Secrets
  import EncStrings

  datatype Folder = Folder(id: string, name: Secret, revisionDate: Option<string>)
  datatype Collection = Collection(id: string, organizationId: string, name: Secret, externalId: Option<string>)
  datatype Profile = Profile(id: string, email: string, name: Option<string>, organizations: seq<string>)
  datatype Vault = Vault(profile: Profile, folders: seq<Folder>, collections: seq<Collection>, ciphers: seq<Cipher>)

  // -------------------------------------------------------- re-keying the vault

  /** `reencrypt_cipher`: the item key and the attachments are dropped. */
  function ReencryptCipher(c: Cipher, userKey: Key, orgKeys: OrgKeys, to: Key, n: nat, draw: Draw): Option<Cipher> {
    var item := RekeyItem(c.item, FieldKey(c, userKey, orgKeys), to, n, draw);
    if item.Some? then Some(c.(key := None, item := item.value, attachments := None)) else None
  }

  function ReencryptFolder(f: Folder, userKey: Key, to: Key, n: nat, draw: Draw): Option<Folder> {
    var name := Reencrypt(f.name, userKey, to, draw(Slot(n, FolderName, 0)));
    if name.Some? then Some(f.(name := name.value)) else None
  }

  /** A collection whose organization key is not known keeps its name as it is. */
  function ReencryptCollection(c: Collection, orgKeys: OrgKeys, to: Key, n: nat, draw: Draw): Option<Collection> {
    if c.organizationId !in orgKeys then Some(c)
    else
      var name := Reencrypt(c.name, orgKeys[c.organizationId], to, draw(Slot(n, CollectionName, 0)));
      if name.Some? then Some(c.(name := name.value)) else None
  }

  /** Items that are not in the trash. */
  function Live(cs: seq<Cipher>): (r: seq<Cipher>)
    ensures forall c :: c in r <==> c in cs && c.deletedDate.None?
  {
    if cs == [] then [] else (if cs[0].deletedDate.None? then [cs[0]] else []) + Live(cs[1..])
  }

  /** They keep their order, and none is lost or doubled: position `at[k]` of the vault is the `k`-th of them. */
  lemma {:induction false} LiveInOrder(cs: seq<Cipher>) returns (at: seq<nat>)
    ensures |at| == |Live(cs)|
    ensures forall k :: 0 <= k < |at| ==> at[k] < |cs| && Live(cs)[k] == cs[at[k]]
    ensures forall k, m :: 0 <= k < m < |at| ==> at[k] < at[m]
    ensures forall j: nat :: j < |cs| ==> (j in at <==> cs[j].deletedDate.None?)
  {
    at := [];
    if cs != [] {
      var front, n: nat := cs[..|cs| - 1], |cs| - 1;
      at := LiveInOrder(front);
      LiveAppend(front, cs[n]);
      assert cs == front + [cs[n]];
      assert forall j: nat :: j < n ==> front[j] == cs[j];
      if cs[n].deletedDate.None? {
        at := at + [n];
      }
    }
  }

  lemma {:induction false} LiveAppend(cs: seq<Cipher>, c: Cipher)
    ensures c.deletedDate.None? ==> Live(cs + [c]) == Live(cs) + [c]
    ensures c.deletedDate.Some? ==> Live(cs + [c]) == Live(cs)
  {
    if cs != [] {
      LiveAppend(cs[1..], c);
      assert (cs + [c])[1..] == cs[1..] + [c];
    }
  }

  function Ciphers(cs: seq<Cipher>, userKey: Key, orgKeys: OrgKeys, to: Key, draw: Draw): (r: seq<Option<Cipher>>)
    ensures |r| == |cs|
    ensures forall i :: 0 <= i < |cs| ==> r[i] == ReencryptCipher(cs[i], userKey, orgKeys, to, i, draw)
  {
    seq(|cs|, i requires 0 <= i < |cs| => ReencryptCipher(cs[i], userKey, orgKeys, to, i, draw))
  }

  function Folders(fs: seq<Folder>, userKey: Key, to: Key, draw: Draw): (r: seq<Option<Folder>>)
    ensures |r| == |fs|
    ensures forall i :: 0 <= i < |fs| ==> r[i] == ReencryptFolder(fs[i], userKey, to, i, draw)
  {
    seq(|fs|, i requires 0 <= i < |fs| => ReencryptFolder(fs[i], userKey, to, i, draw))
  }

  function Collections(cs: seq<Collection>, orgKeys: OrgKeys, to: Key, draw: Draw): (r: seq<Option<Collection>>)
    ensures |r| == |cs|
    ensures forall i :: 0 <= i < |cs| ==> r[i] == ReencryptCollection(cs[i], orgKeys, to, i, draw)
  {
    seq(|cs|, i requires 0 <= i < |cs| => ReencryptCollection(cs[i], orgKeys, to, i, draw))
  }

  /** `build_export`, under the vault key it happens to generate. */
  function BuildExport(v: Vault, userKey: Key, orgKeys: OrgKeys, to: Key, draw: Draw): Option<Vault> {
    var folders := Collect(Folders(v.folders, userKey, to, draw));
    var collections := Collect(Collections(v.collections, orgKeys, to, draw));
    var ciphers := Collect(Ciphers(Live(v.ciphers), userKey, orgKeys, to, draw));
    if folders.Some? && collections.Some? && ciphers.Some?
    then Some(Vault(v.profile, folders.value, collections.value, ciphers.value))
    else None
  }

  /**
   * An export is written exactly when every folder, every live item and every collection of a known organization
   * opens.
   */
  lemma ExportSucceeds(v: Vault, userKey: Key, orgKeys: OrgKeys, to: Key, draw: Draw)
    ensures BuildExport(v, userKey, orgKeys, to, draw).Some? <==>
      && (forall f :: f in v.folders ==> ReadText(f.name, userKey).Some?)
      && (forall c :: c in v.collections && c.organizationId in orgKeys ==>
        ReadText(c.name, orgKeys[c.organizationId]).Some?)
      && (forall c :: c in v.ciphers && c.deletedDate.None? ==> Readable(c.item, FieldKey(c, userKey, orgKeys)))
  {
    FoldersCollect(v.folders, userKey, to, draw);
    CollectionsCollect(v.collections, orgKeys, to, draw);
    CiphersCollect(Live(v.ciphers), userKey, orgKeys, to, draw);
    hide Collect, Readable, FieldKey, ReadText;
    forall c | c in v.ciphers && c.deletedDate.None? ensures c in Live(v.ciphers) {
    }
  }

  lemma FoldersCollect(fs: seq<Folder>, userKey: Key, to: Key, draw: Draw)
    ensures Collect(Folders(fs, userKey, to, draw)).Some? <==> forall f :: f in fs ==> ReadText(f.name, userKey).Some?
  {
    var all := Folders(fs, userKey, to, draw);
    assert forall i :: 0 <= i < |fs| ==> (all[i].Some? <==> ReadText(fs[i].name, userKey).Some?);
    if Collect(all).Some? {
      forall f | f in fs ensures ReadText(f.name, userKey).Some? {
        var i :| 0 <= i < |fs| && fs[i] == f;
        assert all[i].Some?;
      }
    }
  }

  lemma CollectionsCollect(cs: seq<Collection>, orgKeys: OrgKeys, to: Key, draw: Draw)
    ensures Collect(Collections(cs, orgKeys, to, draw)).Some?
      <==> forall c :: c in cs && c.organizationId in orgKeys ==> ReadText(c.name, orgKeys[c.organizationId]).Some?
  {
    var all := Collections(cs, orgKeys, to, draw);
    if Collect(all).Some? {
      forall c | c in cs && c.organizationId in orgKeys ensures ReadText(c.name, orgKeys[c.organizationId]).Some? {
        var i :| 0 <= i < |cs| && cs[i] == c;
        assert all[i].Some?;
      }
    }
  }

  lemma CiphersCollect(cs: seq<Cipher>, userKey: Key, orgKeys: OrgKeys, to: Key, draw: Draw)
    ensures Collect(Ciphers(cs, userKey, orgKeys, to, draw)).Some?
      <==> forall c :: c in cs ==> Readable(c.item, FieldKey(c, userKey, orgKeys))
  {
    var all := Ciphers(cs, userKey, orgKeys, to, draw);
    forall i | 0 <= i < |cs| ensures all[i].Some? <==> Readable(cs[i].item, FieldKey(cs[i], userKey, orgKeys)) {
      RekeyKeepsView(cs[i].item, FieldKey(cs[i], userKey, orgKeys), to, i, draw);
    }
    hide Readable, FieldKey, RekeyItem;
    if Collect(all).Some? {
      forall c | c in cs ensures Readable(c.item, FieldKey(c, userKey, orgKeys)) {
        var i :| 0 <= i < |cs| && cs[i] == c;
        assert all[i].Some?;
      }
    }
  }

  // ------------------------------------------------------- keys of an opened export

  function OrgIdsOfCiphers(cs: seq<Cipher>): (ids: seq<string>)
    ensures forall c :: c in cs && c.organizationId.Some? ==> c.organizationId.value in ids
  {
    if cs == [] then []
    else (if cs[0].organizationId.Some? then [cs[0].organizationId.value] else []) + OrgIdsOfCiphers(cs[1..])
  }

  function OrgIdsOfCollections(cs: seq<Collection>): (ids: seq<string>)
    ensures forall c :: c in cs ==> c.organizationId in ids
  {
    if cs == [] then [] else [cs[0].organizationId] + OrgIdsOfCollections(cs[1..])
  }

  /** The ids the source chains together. */
  function OrgIds(v: Vault): seq<string> {
    OrgIdsOfCiphers(v.ciphers) + OrgIdsOfCollections(v.collections) + v.profile.organizations
  }

  function OrgKeyMap(v: Vault, key: Key): OrgKeys {
    map id | id in OrgIds(v) :: key
  }

  function KeysOfFirst(ids: seq<string>, n: nat, key: Key): OrgKeys
    requires n <= |ids|
  {
    map id | id in ids[..n] :: key
  }

  lemma KeysOfNext(ids: seq<string>, n: nat, key: Key)
    requires n < |ids|
    ensures KeysOfFirst(ids, n + 1, key) == KeysOfFirst(ids, n, key)[ids[n] := key]
    ensures ids[n] in KeysOfFirst(ids, n, key) ==> KeysOfFirst(ids, n, key)[ids[n] := key] == KeysOfFirst(ids, n, key)
  {
    assert ids[..n + 1] == ids[..n] + [ids[n]];
  }

  lemma KeysOfAll(v: Vault, key: Key)
    ensures KeysOfFirst(OrgIds(v), 0, key) == map[] && KeysOfFirst(OrgIds(v), |OrgIds(v)|, key) == OrgKeyMap(v, key)
  {
    var ids := OrgIds(v);
    assert ids[..|ids|] == ids;
  }

  /** `org_key_map`. */
  method BuildOrgKeyMap(v: Vault, key: Key) returns (keys: OrgKeys)
    ensures keys == OrgKeyMap(v, key)
  {
    hide OrgIds, OrgKeyMap, KeysOfFirst;
    keys := map[];
    var ids := OrgIds(v);
    KeysOfAll(v, key);
    for i := 0 to |ids|
      invariant keys == KeysOfFirst(ids, i, key)
    {
      KeysOfNext(ids, i, key);
      if ids[i] !in keys {
        keys := keys[ids[i] := key];
      }
    }
  }

  lemma OrgIdOfCipher(v: Vault, c: Cipher)
    requires c in v.ciphers && c.organizationId.Some?
    ensures c.organizationId.value in OrgIds(v)
  {
  }

  /** Through the exported vault and its key map, every live item reads exactly as it did. */
  lemma ExportKeepsViews(v: Vault, userKey: Key, orgKeys: OrgKeys, to: Key, draw: Draw, i: nat)
    requires BuildExport(v, userKey, orgKeys, to, draw).Some? && i < |Live(v.ciphers)|
    ensures var out := BuildExport(v, userKey, orgKeys, to, draw).value;
      && |out.ciphers| == |Live(v.ciphers)|
      && var c, c' := Live(v.ciphers)[i], out.ciphers[i];
         && c' == c.(key := None, item := c'.item, attachments := None)
         && View(c', to, OrgKeyMap(out, to)) == View(c, userKey, orgKeys)
  {
    var out := BuildExport(v, userKey, orgKeys, to, draw).value;
    var c, c' := Live(v.ciphers)[i], out.ciphers[i];
    assert Some(c') == ReencryptCipher(c, userKey, orgKeys, to, i, draw);
    RekeyKeepsView(c.item, FieldKey(c, userKey, orgKeys), to, i, draw);
    if c'.organizationId.Some? {
      OrgIdOfCipher(out, c');
    }
    hide See, RekeyItem, OrgIds, Collect;
    assert FieldKey(c', to, OrgKeyMap(out, to)) == to;
  }

  /**
   * So does every folder name, and every collection name of an organization whose key was known; of a folder or a
   * collection nothing but the ciphertext of its name is written anew.
   */
  lemma ExportKeepsNames(v: Vault, userKey: Key, orgKeys: OrgKeys, to: Key, draw: Draw, i: nat)
    requires BuildExport(v, userKey, orgKeys, to, draw).Some?
    ensures var out := BuildExport(v, userKey, orgKeys, to, draw).value;
      && |out.folders| == |v.folders| && |out.collections| == |v.collections| && out.profile == v.profile
      && (i < |v.folders| ==>
            && out.folders[i] == v.folders[i].(name := out.folders[i].name)
            && ReadText(out.folders[i].name, to) == ReadText(v.folders[i].name, userKey))
      && (i < |v.collections| ==> out.collections[i] == v.collections[i].(name := out.collections[i].name))
      && (i < |v.collections| && v.collections[i].organizationId in orgKeys ==>
            ReadText(out.collections[i].name, to)
              == ReadText(v.collections[i].name, orgKeys[v.collections[i].organizationId]))
      && (i < |v.collections| && v.collections[i].organizationId !in orgKeys ==> out.collections[i] == v.collections[i])
  {
    if i < |v.folders| {
      FolderKeepsName(v.folders[i], userKey, to, i, draw);
    }
    if i < |v.collections| {
      CollectionKeepsName(v.collections[i], orgKeys, to, i, draw);
    }
    hide ReencryptFolder, ReencryptCollection, Ciphers, ReadText;
  }

  lemma FolderKeepsName(f: Folder, userKey: Key, to: Key, n: nat, draw: Draw)
    ensures var r := ReencryptFolder(f, userKey, to, n, draw);
      r.Some? ==> r.value == f.(name := r.value.name) && ReadText(r.value.name, to) == ReadText(f.name, userKey)
  {
  }

  lemma CollectionKeepsName(c: Collection, orgKeys: OrgKeys, to: Key, n: nat, draw: Draw)
    ensures var r := ReencryptCollection(c, orgKeys, to, n, draw);
      && (r.Some? ==> r.value == c.(name := r.value.name))
      && (r.Some? && c.organizationId in orgKeys ==>
            ReadText(r.value.name, to) == ReadText(c.name, orgKeys[c.organizationId]))
      && (c.organizationId !in orgKeys ==> r == Some(c))
  {
  }

  /** The item is in a folder of that name, as the holder of `key` reads it. */
  ghost predicate InFolder(c: Cipher, folders: seq<Folder>, key: Key, name: Seen) {
    exists i :: 0 <= i < |folders| && c.folderId == Some(folders[i].id) && ReadText(folders[i].name, key) == name
  }

  /** The item is in a collection of that organization and name, as the holder of its key reads it. */
  ghost predicate InCollection(c: Cipher, collections: seq<Collection>, key: Key, org: string, name: Seen) {
    exists i :: 0 <= i < |collections| && collections[i].id in c.collectionIds
      && collections[i].organizationId == org && ReadText(collections[i].name, key) == name
  }

  /** Folder for folder the same ids and, each under its own key, the same names. */
  ghost predicate SameFolders(a: seq<Folder>, aKey: Key, b: seq<Folder>, bKey: Key) {
    |a| == |b| && forall i :: 0 <= i < |a| ==>
      a[i].id == b[i].id && ReadText(a[i].name, aKey) == ReadText(b[i].name, bKey)
  }

  /** Collection for collection the same ids and owners and, for this organization, the same names. */
  ghost predicate SameCollections(a: seq<Collection>, aKey: Key, b: seq<Collection>, bKey: Key, org: string) {
    |a| == |b| && forall i :: 0 <= i < |a| ==>
      && a[i].id == b[i].id && a[i].organizationId == b[i].organizationId
      && (a[i].organizationId == org ==> ReadText(a[i].name, aKey) == ReadText(b[i].name, bKey))
  }

  lemma ExportKeepsFolders(v: Vault, userKey: Key, orgKeys: OrgKeys, to: Key, draw: Draw)
    requires BuildExport(v, userKey, orgKeys, to, draw).Some?
    ensures SameFolders(v.folders, userKey, BuildExport(v, userKey, orgKeys, to, draw).value.folders, to)
  {
    var out := BuildExport(v, userKey, orgKeys, to, draw).value;
    hide BuildExport, ReadText;
    ExportKeepsNames(v, userKey, orgKeys, to, draw, 0);
    forall i | 0 <= i < |v.folders|
      ensures out.folders[i].id == v.folders[i].id
      ensures ReadText(v.folders[i].name, userKey) == ReadText(out.folders[i].name, to)
    {
      ExportKeepsNames(v, userKey, orgKeys, to, draw, i);
    }
  }

  lemma ExportKeepsCollections(v: Vault, userKey: Key, orgKeys: OrgKeys, to: Key, draw: Draw, org: string)
    requires BuildExport(v, userKey, orgKeys, to, draw).Some? && org in orgKeys
    ensures SameCollections(
      v.collections, orgKeys[org], BuildExport(v, userKey, orgKeys, to, draw).value.collections, to, org)
  {
    var out := BuildExport(v, userKey, orgKeys, to, draw).value;
    hide BuildExport, ReadText;
    ExportKeepsNames(v, userKey, orgKeys, to, draw, 0);
    forall i | 0 <= i < |v.collections|
      ensures out.collections[i].id == v.collections[i].id
      ensures out.collections[i].organizationId == v.collections[i].organizationId
      ensures v.collections[i].organizationId == org ==>
        ReadText(v.collections[i].name, orgKeys[org]) == ReadText(out.collections[i].name, to)
    {
      ExportKeepsNames(v, userKey, orgKeys, to, draw, i);
    }
  }

  /** Every live item is in the same folders, by their names, as before. */
  lemma ExportKeepsFolder(v: Vault, userKey: Key, orgKeys: OrgKeys, to: Key, draw: Draw, i: nat, name: Seen)
    requires BuildExport(v, userKey, orgKeys, to, draw).Some? && i < |Live(v.ciphers)|
    ensures var out := BuildExport(v, userKey, orgKeys, to, draw).value;
      && |out.ciphers| == |Live(v.ciphers)|
      && (InFolder(out.ciphers[i], out.folders, to, name) <==> InFolder(Live(v.ciphers)[i], v.folders, userKey, name))
  {
    ExportKeepsViews(v, userKey, orgKeys, to, draw, i);
    ExportKeepsFolders(v, userKey, orgKeys, to, draw);
    hide BuildExport, Live, View, ReadText;
  }

  /**
   * It is in the same collections, by their names, of every organization whose key was known; the key map of the opened
   * file finds the key these names are now under.
   */
  lemma ExportKeepsCollection(
    v: Vault, userKey: Key, orgKeys: OrgKeys, to: Key, draw: Draw, i: nat, org: string, name: Seen)
    requires BuildExport(v, userKey, orgKeys, to, draw).Some? && i < |Live(v.ciphers)| && org in orgKeys
    ensures var out := BuildExport(v, userKey, orgKeys, to, draw).value;
      && |out.ciphers| == |Live(v.ciphers)|
      && var before := InCollection(Live(v.ciphers)[i], v.collections, orgKeys[org], org, name);
         && (before <==> InCollection(out.ciphers[i], out.collections, to, org, name))
         && (before ==> org in OrgKeyMap(out, to) && OrgKeyMap(out, to)[org] == to)
  {
    var out := BuildExport(v, userKey, orgKeys, to, draw).value;
    ExportKeepsViews(v, userKey, orgKeys, to, draw, i);
    ExportKeepsCollections(v, userKey, orgKeys, to, draw, org);
    hide BuildExport, Live, OrgIds, View, ReadText;
    if InCollection(out.ciphers[i], out.collections, to, org, name) {
      var k :| 0 <= k < |out.collections| && out.collections[k].organizationId == org;
      OrgIdOfCollection(out, out.collections[k]);
    }
  }

  lemma OrgIdOfCollection(v: Vault, c: Collection)
    requires c in v.collections
    ensures c.organizationId in OrgIds(v)
  {
  }

  // --------------------------------------------------------- sealing and opening

  datatype KdfKind = UsePbkdf2 | UseArgon2id
  datatype KdfParams = KdfParams(kind: KdfKind, iterations: nat, memoryMib: Option<nat>, parallelism: Option<nat>)

  /** The salt as the file spells it. */
  datatype Salt = Salt(bytes: seq<nat>) | NotBase64

  datatype Header = Header(format: string, version: nat, kdf: KdfParams, salt: Salt)

  /** What decrypting `headerAuth` may yield. */
  datatype HeaderText = Canonical(header: Header) | OtherText | NotText

  datatype File = File(
    format: string, version: nat, kdf: KdfParams, salt: Salt,
    headerAuth: Enc<HeaderText>, protectedKey: Secret, data: Enc<Option<Vault>>)

  /** Bytes on disk: an envelope, or anything else. */
  datatype Blob = Envelope(file: File, size: nat) | Junk(size: nat)

  datatype Opened = Opened(vault: Vault, key: Key) | Malformed | WrongPassword | CryptoError

  /** `u32` memory in KiB, which saturates. */
  function Kib(mib: nat): nat {
    if mib * 1024 > 0xFFFF_FFFF then 0xFFFF_FFFF else mib * 1024
  }

  /** What the key derivation library itself accepts, on top of the floors. */
  type Library = Kdf -> bool

  /** `derive_file_key`, stretched. */
  function FileKey(password: string, salt: seq<nat>, kdf: KdfParams, library: Library): Option<Key> {
    if |salt| < 16 then None
    else if kdf.kind.UsePbkdf2? then
      if kdf.iterations < 5000 then None else Some(Derived(password, salt, Pbkdf2(kdf.iterations)))
    else if kdf.memoryMib.None? || kdf.parallelism.None? then None
    else if kdf.iterations < 2 || kdf.memoryMib.value < 15 || kdf.parallelism.value < 1 then None
    else
      var run := Argon2id(Kib(kdf.memoryMib.value), kdf.iterations, kdf.parallelism.value);
      if library(run) then Some(Derived(password, salt, run)) else None
  }

  const FORMAT_TAG := "clavix.vault.encrypted"
  const FORMAT_VERSION: nat := 1

  /** 128 MiB. */
  const MAX_EXPORT_BYTES: nat := 134_217_728

  /** `seal`, with the salt and the vectors it happens to draw. */
  function Seal(
    v: Vault, key: Key, password: string, kdf: KdfParams, salt: seq<nat>, ivs: (nat, nat, nat),
    library: Library):
    Option<File>
  {
    var fileKey := FileKey(password, salt, kdf, library);
    if fileKey.None? then None
    else Some(File(
      FORMAT_TAG, FORMAT_VERSION, kdf, Salt(salt),
      Sym(fileKey.value, ivs.0, Canonical(Header(FORMAT_TAG, FORMAT_VERSION, kdf, Salt(salt)))),
      Sym(fileKey.value, ivs.1, KeyBytes(key)),
      Sym(fileKey.value, ivs.2, Some(v))))
  }

  function Open(blob: Blob, password: string, library: Library): Opened {
    if blob.size > MAX_EXPORT_BYTES || blob.Junk? then Malformed
    else
      var f := blob.file;
      if f.format != FORMAT_TAG || f.version != FORMAT_VERSION || f.salt.NotBase64? then Malformed
      else
        var fileKey := FileKey(password, f.salt.bytes, f.kdf, library);
        if fileKey.None? then CryptoError else OpenWith(f, fileKey.value)
  }

  function OpenWith(f: File, fileKey: Key): Opened {
    var header := Decrypt(f.headerAuth, fileKey);
    if header.None? || header.value.NotText? then WrongPassword
    else if header.value != Canonical(Header(f.format, f.version, f.kdf, f.salt)) then Malformed
    else
      var keyBytes := Decrypt(f.protectedKey, fileKey);
      if keyBytes.None? then Malformed
      else if !keyBytes.value.KeyBytes? then CryptoError
      else
        var data := Decrypt(f.data, fileKey);
        if data.None? || data.value.None? then Malformed else Opened(data.value.value, keyBytes.value.key)
  }

  /** What was sealed opens under the same password, unless the file outgrew the reader's limit. */
  lemma SealThenOpen(
    v: Vault, key: Key, password: string, kdf: KdfParams, salt: seq<nat>, ivs: (nat, nat, nat), library: Library,
    size: nat)
    requires Seal(v, key, password, kdf, salt, ivs, library).Some?
    ensures var file := Seal(v, key, password, kdf, salt, ivs, library).value;
      Open(Envelope(file, size), password, library) == Opened(v, key) <==> size <= MAX_EXPORT_BYTES
  {
  }

  ghost predicate IsSealed(
    file: File, v: Vault, key: Key, password: string, library: Library, ivs: (nat, nat, nat))
  {
    file.salt.Salt? && Seal(v, key, password, file.kdf, file.salt.bytes, ivs, library) == Some(file)
  }

  /** No other files open: what opens to a vault and a key was sealed from them, under that password. */
  lemma OnlySealedOpens(file: File, size: nat, password: string, library: Library, v: Vault, key: Key)
    ensures Open(Envelope(file, size), password, library) == Opened(v, key)
      <==> size <= 134_217_728 && exists ivs :: IsSealed(file, v, key, password, library, ivs)
  {
    if Open(Envelope(file, size), password, library) == Opened(v, key) {
      assert IsSealed(file, v, key, password, library, (file.headerAuth.iv, file.protectedKey.iv, file.data.iv));
    }
    if ivs :| IsSealed(file, v, key, password, library, ivs) {
      SealThenOpen(v, key, password, file.kdf, file.salt.bytes, ivs, library, size);
    }
  }

  /** Under any other password it is refused as such, whatever the size limit lets through. */
  lemma OtherPasswordRefused(
    v: Vault, key: Key, password: string, kdf: KdfParams, salt: seq<nat>, ivs: (nat, nat, nat), library: Library,
    size: nat, other: string)
    requires Seal(v, key, password, kdf, salt, ivs, library).Some? && size <= MAX_EXPORT_BYTES && other != password
    ensures Open(Envelope(Seal(v, key, password, kdf, salt, ivs, library).value, size), other, library) == WrongPassword
  {
  }

  /** A sealed file whose header was edited in any way never opens, even where the edit leaves the derived key alone. */
  lemma EditedHeaderRefused(
    v: Vault, key: Key, password: string, kdf: KdfParams, salt: seq<nat>, ivs: (nat, nat, nat), library: Library,
    edited: File, size: nat, attempt: string)
    requires Seal(v, key, password, kdf, salt, ivs, library).Some?
    requires var file := Seal(v, key, password, kdf, salt, ivs, library).value;
      && edited.headerAuth == file.headerAuth
      && (edited.format, edited.version, edited.kdf, edited.salt) != (file.format, file.version, file.kdf, file.salt)
    ensures !Open(Envelope(edited, size), attempt, library).Opened?
  {
  }

  /** Memory is handed over in KiB, as far as 32 bits go. */
  lemma MemoryInKib(mib: nat)
    ensures mib < 4_194_304 ==> Kib(mib) == 1024 * mib
    ensures mib >= 4_194_304 ==> Kib(mib) == 4_294_967_295
  {
  }

  /** Two memory settings too large for 32 bits derive one key, so only the header check tells them apart. */
  lemma SaturatedMemoryDerivesOneKey(password: string, salt: seq<nat>, kdf: KdfParams, library: Library, mib: nat)
    requires kdf.kind.UseArgon2id? && kdf.memoryMib.Some? && kdf.memoryMib.value >= 4_194_304 && mib >= 4_194_304
    ensures FileKey(password, salt, kdf, library) == FileKey(password, salt, kdf.(memoryMib := Some(mib)), library)
  {
  }

  /** Two derivations give one key exactly if all that goes in is alike, of Argon2id memory the KiB in 32 bits. */
  lemma OneKeyExactly(
    password: string, salt: seq<nat>, kdf: KdfParams, password': string, salt': seq<nat>, kdf': KdfParams,
    library: Library)
    requires FileKey(password, salt, kdf, library).Some? && FileKey(password', salt', kdf', library).Some?
    ensures FileKey(password, salt, kdf, library) == FileKey(password', salt', kdf', library)
      <==> && password == password' && salt == salt' && kdf.kind == kdf'.kind && kdf.iterations == kdf'.iterations
           && (kdf.kind.UseArgon2id? ==>
                 && Kib(kdf.memoryMib.value) == Kib(kdf'.memoryMib.value)
                 && kdf.parallelism == kdf'.parallelism)
  {
  }

  /** The least a key may be derived with. */
  predicate AboveFloors(kdf: KdfParams) {
    match kdf.kind
    case UsePbkdf2 => kdf.iterations >= 5000
    case UseArgon2id =>
      && kdf.iterations >= 2 && kdf.memoryMib.Some? && kdf.memoryMib.value >= 15
      && kdf.parallelism.Some? && kdf.parallelism.value >= 1
  }

  /** The library is asked about Argon2id settings only. */
  predicate LibraryAgrees(kdf: KdfParams, library: Library)
    requires AboveFloors(kdf)
  {
    kdf.kind.UseArgon2id? ==> library(Argon2id(Kib(kdf.memoryMib.value), kdf.iterations, kdf.parallelism.value))
  }

  /**
   * With the sixteen random bytes `seal` draws for a salt, it succeeds exactly for settings at or above the floors that
   * the library itself accepts.
   */
  lemma SealSucceeds(
    v: Vault, key: Key, password: string, kdf: KdfParams, salt: seq<nat>, ivs: (nat, nat, nat), library: Library)
    requires |salt| == 16
    ensures Seal(v, key, password, kdf, salt, ivs, library).Some? <==> AboveFloors(kdf) && LibraryAgrees(kdf, library)
  {
  }

  /**
   * No file talks the reader into a cheap derivation: below the floors every password gets the same answer, which is
   * neither the vault nor a hint that the password is wrong.
   */
  lemma WeakFileTellsNothing(blob: Blob, password: string, other: string, library: Library)
    requires blob.Envelope? && !AboveFloors(blob.file.kdf)
    ensures Open(blob, password, library) == Open(blob, other, library)
    ensures !Open(blob, password, library).Opened? && !Open(blob, password, library).WrongPassword?
  {
  }

  // ---------------------------------------------------------- how large a vault

  /** How long JSON is: of a vault, and of a file without the ciphertext of its vault. */
  datatype Lengths = Lengths(vault: Vault -> nat, around: File -> nat)

  /** Bytes of a file as it is written. */
  function FileBytes(file: File, lengths: Lengths): nat {
    var data := file.data;
    var n := if data.Sym? && data.plain.Some? then EncStrings.EncryptedLength(lengths.vault(data.plain.value)) else 0;
    lengths.around(file) + n
  }

  /** The least number of bytes of vault, as JSON, whose sealed file is too large to be opened. */
  function FirstTooLarge(around: nat): nat {
    if around + 72 > MAX_EXPORT_BYTES then 0 else (MAX_EXPORT_BYTES - around - 72) / 4 * 3 / 16 * 16
  }

  lemma FitsExactly(around: nat, n: nat)
    ensures around + EncStrings.EncryptedLength(n) <= MAX_EXPORT_BYTES <==> n < FirstTooLarge(around)
  {
    var blocks, room := n / 16 + 1, (MAX_EXPORT_BYTES - around - 72) / 4;
    assert n / 16 * 16 + 16 == 16 * blocks;
    if around + 72 <= MAX_EXPORT_BYTES {
      assert around + EncStrings.EncryptedLength(n) <= MAX_EXPORT_BYTES <==> (16 * blocks + 2) / 3 <= room;
      assert (16 * blocks + 2) / 3 <= room <==> blocks <= room * 3 / 16;
      assert blocks <= room * 3 / 16 <==> n < room * 3 / 16 * 16;
    }
  }

  /** A vault that was sealed opens again exactly when its JSON is short enough. */
  lemma SealedOpensExactly(
    v: Vault, key: Key, password: string, kdf: KdfParams, salt: seq<nat>, ivs: (nat, nat, nat), library: Library,
    lengths: Lengths)
    requires Seal(v, key, password, kdf, salt, ivs, library).Some?
    ensures var file := Seal(v, key, password, kdf, salt, ivs, library).value;
      Open(Envelope(file, FileBytes(file, lengths)), password, library) == Opened(v, key)
      <==> lengths.vault(v) < FirstTooLarge(lengths.around(file))
  {
    var file := Seal(v, key, password, kdf, salt, ivs, library).value;
    SealThenOpen(v, key, password, kdf, salt, ivs, library, FileBytes(file, lengths));
    FitsExactly(lengths.around(file), lengths.vault(v));
    hide Open, FirstTooLarge, EncStrings.EncryptedLength;
  }

  /** A vault of 96 MiB or more is sealed without a word and can never be opened. */
  lemma LargeVaultIsLost(
    v: Vault, key: Key, password: string, kdf: KdfParams, salt: seq<nat>, ivs: (nat, nat, nat), library: Library,
    lengths: Lengths, attempt: string)
    requires Seal(v, key, password, kdf, salt, ivs, library).Some? && lengths.vault(v) >= 100_663_296
    ensures var file := Seal(v, key, password, kdf, salt, ivs, library).value;
      Open(Envelope(file, FileBytes(file, lengths)), attempt, library) == Malformed
  {
    var file := Seal(v, key, password, kdf, salt, ivs, library).value;
    FitsExactly(lengths.around(file), lengths.vault(v));
    hide EncStrings.EncryptedLength;
  }

  /** The whole way: export, seal, open, resolve keys. Every live item reads as before; nothing else is in the file. */
  lemma ExportRoundTrip(
    v: Vault, userKey: Key, orgKeys: OrgKeys, vaultKey: Key, draw: Draw,
    password: string, kdf: KdfParams, salt: seq<nat>, ivs: (nat, nat, nat), library: Library, lengths: Lengths, i: nat)
    requires BuildExport(v, userKey, orgKeys, vaultKey, draw).Some? && i < |Live(v.ciphers)|
    requires var out := BuildExport(v, userKey, orgKeys, vaultKey, draw).value;
      && Seal(out, vaultKey, password, kdf, salt, ivs, library).Some?
      && var file := Seal(out, vaultKey, password, kdf, salt, ivs, library).value;
         lengths.vault(out) < FirstTooLarge(lengths.around(file))
    ensures var out := BuildExport(v, userKey, orgKeys, vaultKey, draw).value;
      var file := Seal(out, vaultKey, password, kdf, salt, ivs, library).value;
      var got := Open(Envelope(file, FileBytes(file, lengths)), password, library);
      && got.Opened? && |got.vault.ciphers| == |Live(v.ciphers)|
      && View(got.vault.ciphers[i], got.key, OrgKeyMap(got.vault, got.key))
        == View(Live(v.ciphers)[i], userKey, orgKeys)
  {
    var out := BuildExport(v, userKey, orgKeys, vaultKey, draw).value;
    ExportKeepsViews(v, userKey, orgKeys, vaultKey, draw, i);
    SealedOpensExactly(out, vaultKey, password, kdf, salt, ivs, library, lengths);
    hide BuildExport, View, OrgKeyMap, Seal, Open, Live, FirstTooLarge;
  }
}
