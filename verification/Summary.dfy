/** The counts of `build_sync_summary` in src-tauri/core/src/services/vault.rs, and how an item is named in the list. */
module Summary {
  import opened Optional
  import opened Secrets
  import opened Export

  datatype TypeCounts = TypeCounts(login: nat, secureNote: nat, card: nat, identity: nat, sshKey: nat)

  function Total(t: TypeCounts): nat {
    t.login + t.secureNote + t.card + t.identity + t.sshKey
  }

  function OfKind(cs: seq<Cipher>, kind: Kind): nat {
    if cs == [] then 0
    else OfKind(cs[..|cs| - 1], kind) + if cs[|cs| - 1].kind == kind then 1 else 0
  }

  function Counts(cs: seq<Cipher>): TypeCounts {
    TypeCounts(OfKind(cs, LoginKind), OfKind(cs, SecureNote), OfKind(cs, CardKind), OfKind(cs, IdentityKind),
      OfKind(cs, SshKind))
  }

  /** Every item has exactly one kind, so the counts add up. */
  lemma {:induction false} CountsAddUp(cs: seq<Cipher>)
    ensures Total(Counts(cs)) == |cs|
    decreases |cs|
  {
    if cs != [] {
      CountsAddUp(cs[..|cs| - 1]);
    }
  }

  function Bumped(t: TypeCounts, kind: Kind): TypeCounts {
    match kind
    case LoginKind => t.(login := t.login + 1)
    case SecureNote => t.(secureNote := t.secureNote + 1)
    case CardKind => t.(card := t.card + 1)
    case IdentityKind => t.(identity := t.identity + 1)
    case SshKind => t.(sshKey := t.sshKey + 1)
  }

  lemma {:induction false} CountNext(live: seq<Cipher>, c: Cipher)
    ensures Counts(live + [c]) == Bumped(Counts(live), c.kind)
  {
    assert (live + [c])[..|live|] == live;
  }

  function LiveOfFirst(cs: seq<Cipher>, n: nat): seq<Cipher>
    requires n <= |cs|
  {
    Live(cs[..n])
  }

  lemma {:induction false} LiveOfNext(cs: seq<Cipher>, n: nat)
    requires n < |cs|
    ensures var was := LiveOfFirst(cs, n);
      LiveOfFirst(cs, n + 1) == if cs[n].deletedDate.None? then was + [cs[n]] else was
  {
    LiveAppend(cs[..n], cs[n]);
    assert cs[..n + 1] == cs[..n] + [cs[n]];
  }

  lemma LiveOfAll(cs: seq<Cipher>)
    ensures LiveOfFirst(cs, 0) == [] && Counts([]) == TypeCounts(0, 0, 0, 0, 0) && LiveOfFirst(cs, |cs|) == Live(cs)
  {
    assert cs[..|cs|] == cs;
  }

  /** One pass over all items: trashed ones count nowhere, every other one exactly once. */
  method CountTypes(cs: seq<Cipher>) returns (counts: TypeCounts, itemCount: nat)
    ensures counts == Counts(Live(cs)) && itemCount == |Live(cs)| == Total(counts)
  {
    counts, itemCount := TypeCounts(0, 0, 0, 0, 0), 0;
    hide Live, Counts, Bumped, LiveOfFirst;
    LiveOfAll(cs);
    for i := 0 to |cs|
      invariant counts == Counts(LiveOfFirst(cs, i)) && itemCount == |LiveOfFirst(cs, i)|
    {
      LiveOfNext(cs, i);
      CountNext(LiveOfFirst(cs, i), cs[i]);
      if cs[i].deletedDate.None? {
        counts := Bumped(counts, cs[i].kind);
        itemCount := itemCount + 1;
      }
    }
    CountsAddUp(Live(cs));
  }

  /** `decrypt_or_placeholder` under the key the fields are under. */
  function ShownName(c: Cipher, userKey: Key, orgKeys: OrgKeys): string {
    var name := ReadText(c.item.name, FieldKey(c, userKey, orgKeys));
    if name.Some? then name.value else "[decrypt failed]"
  }

  /** An item is listed under the name a reader sees, or as one that could not be decrypted. */
  lemma ShownNameIsSeen(c: Cipher, userKey: Key, orgKeys: OrgKeys)
    ensures var seen := View(c, userKey, orgKeys).name;
      (seen.Some? ==> ShownName(c, userKey, orgKeys) == seen.value)
      && (seen.None? ==> ShownName(c, userKey, orgKeys) == "[decrypt failed]")
  {
    hide FieldKey, ReadText, SeeOpt, SeeList, SeeLogin, SeeFields, SeeHistory;
  }

  /** The counts and names of an opened export are those of the vault it was made from. */
  lemma {:induction false} ExportedSummary(v: Vault, userKey: Key, orgKeys: OrgKeys, to: Key, draw: Draw, i: nat)
    requires BuildExport(v, userKey, orgKeys, to, draw).Some? && i < |Live(v.ciphers)|
    ensures var out := BuildExport(v, userKey, orgKeys, to, draw).value;
      && Live(out.ciphers) == out.ciphers && Counts(out.ciphers) == Counts(Live(v.ciphers))
      && ShownName(out.ciphers[i], to, OrgKeyMap(out, to)) == ShownName(Live(v.ciphers)[i], userKey, orgKeys)
  {
    var out, live := BuildExport(v, userKey, orgKeys, to, draw).value, Live(v.ciphers);
    forall k | 0 <= k < |live|
      ensures |out.ciphers| == |live| && out.ciphers[k].kind == live[k].kind
        && out.ciphers[k].deletedDate == live[k].deletedDate
    {
      ExportKeepsViews(v, userKey, orgKeys, to, draw, k);
    }
    forall k | 0 <= k < |live| ensures live[k].deletedDate.None? {
      assert live[k] in live;
    }
    SameKinds(out.ciphers, live);
    AllLive(out.ciphers);
    ExportKeepsViews(v, userKey, orgKeys, to, draw, i);
    hide BuildExport, Live, FieldKey, OrgKeyMap, Counts;
  }

  lemma {:induction false} SameKinds(a: seq<Cipher>, b: seq<Cipher>)
    requires |a| == |b| && forall k :: 0 <= k < |a| ==> a[k].kind == b[k].kind
    ensures Counts(a) == Counts(b)
    decreases |a|
  {
    if a != [] {
      SameKinds(a[..|a| - 1], b[..|b| - 1]);
    }
  }

  lemma {:induction false} AllLive(cs: seq<Cipher>)
    requires forall k :: 0 <= k < |cs| ==> cs[k].deletedDate.None?
    ensures Live(cs) == cs
  {
    if cs != [] {
      AllLive(cs[1..]);
      assert cs == [cs[0]] + cs[1..];
    }
  }
}
