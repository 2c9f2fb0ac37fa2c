/** Cipher index and vault filters: buildCipherIndex in src/lib/tree.ts, and src/lib/filter.ts. */
module Filter {
  import opened Optional
  import opened Tree

  datatype CipherSummary = CipherSummary(
    name: string, kind: nat, favorite: bool, deletedDate: Option<string>,
    folderId: Option<string>, organizationId: Option<string>, collectionIds: seq<string>)

  datatype QuickFilter = All | Favorites | Trash | OfType(kind: nat)

  predicate MatchesQuickFilter(c: CipherSummary, filter: QuickFilter) {
    if filter.Trash? then c.deletedDate.Some?
    else if c.deletedDate.Some? then false
    else if filter.Favorites? then c.favorite
    else if filter.OfType? then c.kind == filter.kind
    else true
  }

  function QuickFilterFn(filter: QuickFilter): CipherSummary -> bool {
    (c: CipherSummary) => MatchesQuickFilter(c, filter)
  }

  function Where(items: seq<CipherSummary>, keep: CipherSummary -> bool): seq<CipherSummary> {
    if items == [] then []
    else (if keep(items[0]) then [items[0]] else []) + Where(items[1..], keep)
  }

  predicate IsLive(c: CipherSummary) { MatchesQuickFilter(c, All) }

  predicate IsFavorite(c: CipherSummary) { MatchesQuickFilter(c, Favorites) }

  predicate IsTrash(c: CipherSummary) { MatchesQuickFilter(c, Trash) }

  function Live(items: seq<CipherSummary>): seq<CipherSummary> {
    Where(items, IsLive)
  }

  // -------------------------------------------------------------- the index

  function FolderTags(c: CipherSummary): seq<string> {
    if Truthy(c.folderId) then [c.folderId.value] else []
  }

  function CollectionTags(c: CipherSummary): seq<string> {
    c.collectionIds
  }

  /** The ids of one kind an item counts under. */
  function Tags(c: CipherSummary, which: Which): seq<string> {
    if which.ByFolder? then FolderTags(c) else CollectionTags(c)
  }

  function TagsOf(which: Which): CipherSummary -> seq<string> {
    if which.ByFolder? then FolderTags else CollectionTags
  }

  function OrgTags(c: CipherSummary): seq<string> {
    if Truthy(c.organizationId) then [c.organizationId.value] else []
  }

  function Occurrences(tags: seq<string>, id: string): nat {
    if tags == [] then 0 else (if tags[0] == id then 1 else 0) + Occurrences(tags[1..], id)
  }

  /** How often the items carry `id` among their tags. */
  function Carried(items: seq<CipherSummary>, tags: CipherSummary -> seq<string>, id: string): nat {
    if items == [] then 0 else Occurrences(tags(items[0]), id) + Carried(items[1..], tags, id)
  }

  function Get(tally: map<string, nat>, id: string): nat {
    if id in tally then tally[id] else 0
  }

  ghost predicate Tallies(tally: map<string, nat>, items: seq<CipherSummary>, tags: CipherSummary -> seq<string>) {
    forall id :: Get(tally, id) == Carried(items, tags, id)
  }

  lemma {:induction false} CarriedConcat(
    a: seq<CipherSummary>, b: seq<CipherSummary>, tags: CipherSummary -> seq<string>, id: string)
    ensures Carried(a + b, tags, id) == Carried(a, tags, id) + Carried(b, tags, id)
  {
    if a == [] {
      assert a + b == b;
    } else {
      CarriedConcat(a[1..], b, tags, id);
      assert (a + b)[1..] == a[1..] + b;
    }
  }

  lemma {:induction false} OccurrencesConcat(a: seq<string>, b: seq<string>, id: string)
    ensures Occurrences(a + b, id) == Occurrences(a, id) + Occurrences(b, id)
  {
    if a == [] {
      assert a + b == b;
    } else {
      OccurrencesConcat(a[1..], b, id);
      assert (a + b)[1..] == a[1..] + b;
    }
  }

  lemma WhereCons(c: CipherSummary, items: seq<CipherSummary>, keep: CipherSummary -> bool)
    ensures Where([c] + items, keep) == (if keep(c) then [c] else []) + Where(items, keep)
  {
    assert ([c] + items)[1..] == items;
  }

  lemma {:induction false} WhereConcat(a: seq<CipherSummary>, b: seq<CipherSummary>, keep: CipherSummary -> bool)
    ensures Where(a + b, keep) == Where(a, keep) + Where(b, keep)
  {
    if a == [] {
      assert a + b == b;
    } else {
      hide Where;
      WhereConcat(a[1..], b, keep);
      WhereCons(a[0], a[1..], keep);
      WhereCons(a[0], a[1..] + b, keep);
      assert a == [a[0]] + a[1..] && a + b == [a[0]] + (a[1..] + b);
    }
  }

  method Bump(tally: map<string, nat>, tags: seq<string>) returns (tally': map<string, nat>)
    ensures forall id :: Get(tally', id) == Get(tally, id) + Occurrences(tags, id)
  {
    tally' := tally;
    for k := 0 to |tags|
      invariant forall id :: Get(tally', id) == Get(tally, id) + Occurrences(tags[..k], id)
    {
      tally' := tally'[tags[k] := Get(tally', tags[k]) + 1];
      assert tags[..k + 1] == tags[..k] + [tags[k]];
      forall id ensures Occurrences(tags[..k + 1], id)
        == Occurrences(tags[..k], id) + (if tags[k] == id then 1 else 0) {
        OccurrencesConcat(tags[..k], [tags[k]], id);
      }
    }
    assert tags[..|tags|] == tags;
  }

  lemma TalliesStep(live: seq<CipherSummary>, c: CipherSummary, tags: CipherSummary -> seq<string>)
    ensures forall id :: Carried(live + [c], tags, id) == Carried(live, tags, id) + Occurrences(tags(c), id)
  {
    forall id ensures Carried(live + [c], tags, id) == Carried(live, tags, id) + Occurrences(tags(c), id) {
      CarriedConcat(live, [c], tags, id);
      assert [c][1..] == [];
    }
  }

  method Count(
    tally: map<string, nat>, c: CipherSummary, tags: CipherSummary -> seq<string>, ghost live: seq<CipherSummary>)
    returns (tally': map<string, nat>)
    requires Tallies(tally, live, tags)
    ensures Tallies(tally', live + [c], tags)
  {
    tally' := Bump(tally, tags(c));
    TalliesStep(live, c, tags);
  }

  lemma WhereStep(items: seq<CipherSummary>, k: nat, keep: CipherSummary -> bool)
    requires k < |items|
    ensures Where(items[..k + 1], keep)
      == if keep(items[k]) then Where(items[..k], keep) + [items[k]] else Where(items[..k], keep)
  {
    assert items[..k + 1] == items[..k] + [items[k]];
    WhereConcat(items[..k], [items[k]], keep);
    assert [items[k]][1..] == [];
  }

  function GetKind(tally: map<nat, nat>, kind: nat): nat {
    if kind in tally then tally[kind] else 0
  }

  /** `tally` counts the items each type filter keeps. */
  ghost predicate TalliesKinds(tally: map<nat, nat>, items: seq<CipherSummary>) {
    forall kind: nat :: GetKind(tally, kind) == |Where(items, QuickFilterFn(OfType(kind)))|
  }

  lemma KindStep(items: seq<CipherSummary>, k: nat, tally: map<nat, nat>)
    requires k < |items| && TalliesKinds(tally, items[..k])
    ensures items[k].deletedDate.Some? ==> TalliesKinds(tally, items[..k + 1])
    ensures items[k].deletedDate.None? ==>
      TalliesKinds(tally[items[k].kind := GetKind(tally, items[k].kind) + 1], items[..k + 1])
  {
    hide Where;
    forall kind: nat ensures |Where(items[..k + 1], QuickFilterFn(OfType(kind)))| ==
      |Where(items[..k], QuickFilterFn(OfType(kind)))| + if MatchesQuickFilter(items[k], OfType(kind)) then 1 else 0
    {
      WhereStep(items, k, QuickFilterFn(OfType(kind)));
    }
  }

  lemma NoKinds()
    ensures TalliesKinds(map[], [])
  {
  }

  lemma Quick(c: CipherSummary)
    ensures IsLive(c) <==> c.deletedDate.None?
    ensures IsFavorite(c) <==> c.deletedDate.None? && c.favorite
    ensures IsTrash(c) <==> c.deletedDate.Some?
  {
  }

  /** One pass over the vault; trashed items are counted apart and nowhere else. */
  method BuildCipherIndex(ciphers: seq<CipherSummary>)
    returns (
      byFolder: map<string, nat>, byCollection: map<string, nat>, byOrg: map<string, nat>, byType: map<nat, nat>,
      favorites: nat, trash: nat)
    ensures Tallies(byFolder, Live(ciphers), FolderTags)
    ensures Tallies(byCollection, Live(ciphers), CollectionTags)
    ensures Tallies(byOrg, Live(ciphers), OrgTags)
    ensures TalliesKinds(byType, ciphers)
    ensures favorites == |Where(ciphers, IsFavorite)| && trash == |Where(ciphers, IsTrash)|
  {
    hide TalliesKinds, MatchesQuickFilter;
    byFolder, byCollection, byOrg, byType, favorites, trash := map[], map[], map[], map[], 0, 0;
    NoKinds();
    for k := 0 to |ciphers|
      invariant Tallies(byFolder, Live(ciphers[..k]), FolderTags)
      invariant Tallies(byCollection, Live(ciphers[..k]), CollectionTags)
      invariant Tallies(byOrg, Live(ciphers[..k]), OrgTags)
      invariant TalliesKinds(byType, ciphers[..k])
      invariant favorites == |Where(ciphers[..k], IsFavorite)| && trash == |Where(ciphers[..k], IsTrash)|
    {
      var c := ciphers[k];
      WhereStep(ciphers, k, IsLive);
      WhereStep(ciphers, k, IsFavorite);
      WhereStep(ciphers, k, IsTrash);
      KindStep(ciphers, k, byType);
      Quick(c);
      if c.deletedDate.Some? {
        trash := trash + 1;
        continue;
      }
      if c.favorite {
        favorites := favorites + 1;
      }
      byType := byType[c.kind := (if c.kind in byType then byType[c.kind] else 0) + 1];
      ghost var live := Live(ciphers[..k]);
      byFolder := Count(byFolder, c, FolderTags, live);
      byOrg := Count(byOrg, c, OrgTags, live);
      byCollection := Count(byCollection, c, CollectionTags, live);
    }
    assert ciphers[..|ciphers|] == ciphers;
  }

  // ------------------------------------------------------------- the filters

  /** Whether an item is shown when `node` is selected. */
  predicate Shown(c: CipherSummary, node: Tree) {
    match node.info.kind
    case Folder => c.folderId.Some? && c.folderId.value in CollectIds(node, ByFolder)
    case Organization => c.organizationId == node.info.organizationId
    case Collection => exists i :: 0 <= i < |c.collectionIds| && c.collectionIds[i] in CollectIds(node, ByCollection)
  }

  function ShownFor(node: Tree): CipherSummary -> bool {
    (c: CipherSummary) => Shown(c, node)
  }

  function FilterByTreeNode(items: seq<CipherSummary>, node: Tree): seq<CipherSummary> {
    Where(items, ShownFor(node))
  }

  /** The list order is a library comparison: any relation may stand for it. */
  type CipherOrder = (CipherSummary, CipherSummary) -> bool

  function Insert(c: CipherSummary, sorted: seq<CipherSummary>, leq: CipherOrder): (r: seq<CipherSummary>)
    ensures multiset(r) == multiset(sorted) + multiset{c}
  {
    if sorted == [] || leq(c, sorted[0]) then [c] + sorted
    else
      assert sorted == [sorted[0]] + sorted[1..];
      [sorted[0]] + Insert(c, sorted[1..], leq)
  }

  function SortCiphers(items: seq<CipherSummary>, leq: CipherOrder): (r: seq<CipherSummary>)
    ensures multiset(r) == multiset(items)
  {
    if items == [] then []
    else
      assert items == [items[0]] + items[1..];
      Insert(items[0], SortCiphers(items[1..], leq), leq)
  }

  ghost predicate InOrder(items: seq<CipherSummary>, leq: CipherOrder) {
    forall i :: 0 < i < |items| ==> leq(items[i - 1], items[i])
  }

  lemma {:induction false} InsertedInOrder(c: CipherSummary, l: seq<CipherSummary>, leq: CipherOrder)
    requires (forall a, b :: leq(a, b) || leq(b, a)) && InOrder(l, leq)
    ensures InOrder(Insert(c, l, leq), leq)
  {
    if l != [] && !leq(c, l[0]) {
      assert l == [l[0]] + l[1..];
      InsertedInOrder(c, l[1..], leq);
    }
  }

  /** Under any comparison of all pairs, the list comes out in order. */
  lemma {:induction false} SortedInOrder(items: seq<CipherSummary>, leq: CipherOrder)
    requires forall a, b :: leq(a, b) || leq(b, a)
    ensures InOrder(SortCiphers(items, leq), leq)
  {
    if items != [] {
      SortedInOrder(items[1..], leq);
      InsertedInOrder(items[0], SortCiphers(items[1..], leq), leq);
    }
  }

  predicate Tied(a: CipherSummary, b: CipherSummary, leq: CipherOrder) {
    leq(a, b) && leq(b, a)
  }

  function TiedWith(c: CipherSummary, leq: CipherOrder): CipherSummary -> bool {
    (x: CipherSummary) => Tied(x, c, leq)
  }

  ghost predicate Preorder(leq: CipherOrder) {
    && (forall a, b :: leq(a, b) || leq(b, a))
    && (forall a, b, c :: leq(a, b) && leq(b, c) ==> leq(a, c))
  }

  lemma {:induction false} InsertStable(x: CipherSummary, l: seq<CipherSummary>, c: CipherSummary, leq: CipherOrder)
    requires Preorder(leq)
    ensures Where(Insert(x, l, leq), TiedWith(c, leq)) == Where([x] + l, TiedWith(c, leq))
  {
    if l != [] && !leq(x, l[0]) {
      var rest := l[1..];
      InsertStable(x, rest, c, leq);
      hide Where, InOrder;
      assert l == [l[0]] + rest;
      WhereCons(l[0], Insert(x, rest, leq), TiedWith(c, leq));
      WhereCons(x, rest, TiedWith(c, leq));
      WhereCons(x, l, TiedWith(c, leq));
      WhereCons(l[0], rest, TiedWith(c, leq));
      assert !(Tied(x, c, leq) && Tied(l[0], c, leq));
    }
  }

  /** Items the comparison does not tell apart stay in the order they came in. */
  lemma {:induction false} SortIsStable(items: seq<CipherSummary>, c: CipherSummary, leq: CipherOrder)
    requires Preorder(leq)
    ensures Where(SortCiphers(items, leq), TiedWith(c, leq)) == Where(items, TiedWith(c, leq))
  {
    if items != [] {
      var sorted := SortCiphers(items[1..], leq);
      SortIsStable(items[1..], c, leq);
      InsertStable(items[0], sorted, c, leq);
      hide Where, Preorder, Tied, Insert;
      WhereCons(items[0], sorted, TiedWith(c, leq));
      WhereCons(items[0], items[1..], TiedWith(c, leq));
      assert items == [items[0]] + items[1..];
    }
  }

  /** `search` is absent when the trimmed query is empty; otherwise it is the library's text match. */
  datatype Options = Options(
    quickFilter: QuickFilter, selectedKey: Option<string>, trees: seq<Tree>,
    search: Option<CipherSummary -> bool>, order: CipherOrder)

  function ApplyVaultFilters(ciphers: seq<CipherSummary>, options: Options): seq<CipherSummary> {
    var items := Where(ciphers, QuickFilterFn(options.quickFilter));
    var node := if Truthy(options.selectedKey) then FindNode(options.trees, options.selectedKey.value) else None;
    var selected := if node.Some? then FilterByTreeNode(items, node.value) else items;
    var found := if options.search.Some? then Where(selected, options.search.value) else selected;
    SortCiphers(found, options.order)
  }

  lemma {:induction false} WhereKeeps(items: seq<CipherSummary>, keep: CipherSummary -> bool, c: CipherSummary)
    ensures multiset(Where(items, keep))[c] == if keep(c) then multiset(items)[c] else 0
  {
    if items != [] {
      WhereKeeps(items[1..], keep, c);
      WhereCons(items[0], items[1..], keep);
      hide Where;
      assert items == [items[0]] + items[1..];
    }
  }

  /** The item passes what the user has set: the quick filter, the selected node if it exists, and the search. */
  ghost predicate Passes(c: CipherSummary, options: Options) {
    && MatchesQuickFilter(c, options.quickFilter)
    && (Truthy(options.selectedKey) && FindNode(options.trees, options.selectedKey.value).Some? ==>
          Shown(c, FindNode(options.trees, options.selectedKey.value).value))
    && (options.search.Some? ==> options.search.value(c))
  }

  /** The list has each item that passes as often as the vault has it, and no other. */
  lemma ListShows(ciphers: seq<CipherSummary>, options: Options, c: CipherSummary)
    ensures multiset(ApplyVaultFilters(ciphers, options))[c]
      == if Passes(c, options) then multiset(ciphers)[c] else 0
  {
    var items := Where(ciphers, QuickFilterFn(options.quickFilter));
    WhereKeeps(ciphers, QuickFilterFn(options.quickFilter), c);
    var node := if Truthy(options.selectedKey) then FindNode(options.trees, options.selectedKey.value) else None;
    var selected := if node.Some? then FilterByTreeNode(items, node.value) else items;
    if node.Some? {
      WhereKeeps(items, ShownFor(node.value), c);
    }
    if options.search.Some? {
      WhereKeeps(selected, options.search.value, c);
    }
    hide Where, SortCiphers, FindNode, Shown, MatchesQuickFilter;
  }

  /** It is in the order the user chose. */
  lemma ListInOrder(ciphers: seq<CipherSummary>, options: Options)
    requires forall a, b :: options.order(a, b) || options.order(b, a)
    ensures InOrder(ApplyVaultFilters(ciphers, options), options.order)
  {
    var items := Where(ciphers, QuickFilterFn(options.quickFilter));
    var node := if Truthy(options.selectedKey) then FindNode(options.trees, options.selectedKey.value) else None;
    var selected := if node.Some? then FilterByTreeNode(items, node.value) else items;
    var found := if options.search.Some? then Where(selected, options.search.value) else selected;
    hide Where, SortCiphers, FindNode, InOrder;
    SortedInOrder(found, options.order);
  }
}
