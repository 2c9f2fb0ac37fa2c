/** When exactly every count in the sidebar's folder tree is right, and a collection count that is not. */
module FolderCounts {
  import opened Optional
  import Text
  import opened Tree
  import opened TreeShape
  import opened TreeIdents
  import opened Filter
  import opened Sidebar
  import opened VaultTrees

  /** Every folder node says how many items selecting it shows. */
  ghost predicate CountsRight(v: Vault, index: Index, leq: NameOrder, order: CipherOrder) {
    forall node :: Within(node, TreeNo(v, index, leq, 0)) ==>
      |ApplyVaultFilters(v.ciphers, Selecting(node, Trees(v, index, leq), order))| == node.itemCount
  }

  /** They do, whatever the items are. */
  ghost predicate AlwaysRight(v: Vault, leq: NameOrder, order: CipherOrder) {
    forall ciphers, index :: IndexOf(index, ciphers) ==> CountsRight(v.(ciphers := ciphers), index, leq, order)
  }

  // --------------------------------------------------------- the node of an ident

  lemma {:induction false} NodeAt(t: Tree, path: Path, root: string, which: Which, x: Ident) returns (n: Tree)
    requires x in Gather(t, path, IdentFact(root, which))
    ensures Within(n, t) && x == IdentOf(root, which, x.path, n.info)
    ensures Gather(n, x.path, PlaceFact(which)) <= Gather(t, path, PlaceFact(which))
    ensures (x.path, n.info) in Gather(t, path, InfoFact)
    decreases t
  {
    if x == IdentOf(root, which, path, t.info) {
      n := t;
    } else {
      var j := GatherAllMember(t.children, path, IdentFact(root, which), x);
      n := NodeAt(t.children[j], path + [t.children[j].info.name], root, which, x);
      GatherMember(t.children, j, path, PlaceFact(which));
      GatherMember(t.children, j, path, InfoFact);
    }
  }

  lemma {:induction false} PlaceOfId(t: Tree, path: Path, which: Which, any: Path, id: string) returns (p: Path)
    requires id in Gather(t, any, IdFact(which))
    ensures path <= p && (p, id) in Gather(t, path, PlaceFact(which))
    decreases t
  {
    if Truthy(Id(t.info, which)) && Id(t.info, which).value == id {
      p := path;
    } else {
      var j := GatherAllMember(t.children, any, IdFact(which), id);
      var name := t.children[j].info.name;
      p := PlaceOfId(t.children[j], path + [name], which, any + [name], id);
      GatherMember(t.children, j, path, PlaceFact(which));
    }
  }

  lemma OnePlace(all: seq<Insertion>, which: Which, p: Path, q: Path, id: string)
    requires InsertionsOk(all, which) && (p, id) in PlacesOf(all) && (q, id) in PlacesOf(all)
    ensures p == q
  {
    PlaceOfExactly(all, p, id);
    PlaceOfExactly(all, q, id);
    var i: nat :| i < |all| && all[i].segments == p != [] && InsertedId(all[i]) == id;
    var j: nat :| j < |all| && all[j].segments == q != [] && InsertedId(all[j]) == id;
  }

  // ------------------------------------------------------ one item tells them apart

  function OneItem(id: string): CipherSummary {
    CipherSummary("", 0, false, None, Some(id), None, [])
  }

  function OneIndex(id: string): Index {
    Index(map[id := 1], map[], map[])
  }

  lemma OneItemIndexed(id: string)
    requires id != ""
    ensures Live([OneItem(id)]) == [OneItem(id)] && IndexOf(OneIndex(id), [OneItem(id)])
  {
    var c := OneItem(id);
    WhereCons(c, [], IsLive);
    assert [c] + [] == [c] && Where([], IsLive) == [] && IsLive(c);
    assert FolderTags(c) == [id] && CollectionTags(c) == [] && OrgTags(c) == [];
    forall other
      ensures Carried([c], FolderTags, other) == if other == id then 1 else 0
      ensures Carried([c], CollectionTags, other) == 0 && Carried([c], OrgTags, other) == 0
    {
      CarriedOne(c, FolderTags, other);
      CarriedOne(c, CollectionTags, other);
      CarriedOne(c, OrgTags, other);
      OccursOnce(id, other);
    }
  }

  lemma CarriedOne(c: CipherSummary, tags: CipherSummary -> seq<string>, id: string)
    ensures Carried([c], tags, id) == Occurrences(tags(c), id)
  {
    assert [c][1..] == [];
  }

  lemma OccursOnce(id: string, other: string)
    ensures Occurrences([id], other) == (if other == id then 1 else 0) && Occurrences([], other) == 0
  {
    assert [id][1..] == [];
  }

  lemma OneHit(id: string, ids: multiset<string>)
    requires id != ""
    ensures HitsAll([OneItem(id)], ByFolder, ids) == ids[id]
  {
    var c := OneItem(id);
    assert [c][1..] == [] && [id][1..] == [];
    assert Tags(c, ByFolder) == [id];
    assert HitsAll([c], ByFolder, ids) == Hits([id], ids) + HitsAll([], ByFolder, ids);
    assert Hits([id], ids) == ids[id] + Hits([], ids);
  }

  /** Where names clash, the two nodes of one key say one and nothing about the item in the repeated folder. */
  lemma ClashMiscounts(v: Vault, leq: NameOrder, order: CipherOrder, i: nat, j: nat, k: nat)
    requires VaultOk(v) && FolderClash(v.folders, i, j, k)
    ensures var id := v.folders[j].id;
      !CountsRight(v.(ciphers := [OneItem(id)]), OneIndex(id), leq, order) && IndexOf(OneIndex(id), [OneItem(id)])
  {
    var id := v.folders[j].id;
    var live, index := [OneItem(id)], OneIndex(id);
    var w := v.(ciphers := live);
    OneItemIndexed(id);
    var x, y := TwoNodes(w, index, leq, i, j, k);
    OneHit(id, Ids(x, ByFolder));
    OneHit(id, Ids(y, ByFolder));
    var grown := InsertAll(Node(FOLDERS_ROOT, [], 0), FolderInsertions(v.folders));
    BuiltCounted(grown, x, ByFolder, index.byFolder, leq, live);
    BuiltCounted(grown, y, ByFolder, index.byFolder, leq, live);
    hide ApplyVaultFilters, TreeNo, Trees, HitsAll, Ids, Within;
    assert Selecting(x, Trees(w, index, leq), order) == Selecting(y, Trees(w, index, leq), order);
    assert x.itemCount != y.itemCount;
  }

  /** The repeated folder's node and the one that imitates it: one key, and the id in the former alone. */
  lemma TwoNodes(v: Vault, index: Index, leq: NameOrder, i: nat, j: nat, k: nat) returns (x: Tree, y: Tree)
    requires VaultOk(v) && FolderClash(v.folders, i, j, k)
    ensures Within(x, TreeNo(v, index, leq, 0)) && Within(y, TreeNo(v, index, leq, 0))
    ensures x.info.key == y.info.key
    ensures v.folders[j].id in Ids(x, ByFolder) && v.folders[j].id !in Ids(y, ByFolder)
  {
    var root, all := Node(FOLDERS_ROOT, [], 0), FolderInsertions(v.folders);
    var t, id, p := TreeNo(v, index, leq, 0), v.folders[j].id, SplitPath(v.folders[j].name);
    var dup, imitator := Duplicate(p, id), Natural(Imitation(p, id));
    ClashIdents(v.folders, i, j, k);
    BuiltGather(InsertAll(root, all), ByFolder, index.byFolder, leq, IdentFact("folders", ByFolder));
    FolderTreeBuilt(v.folders, index.byFolder, leq);
    x := NodeAt(t, [], "folders", ByFolder, dup);
    y := NodeAt(t, [], "folders", ByFolder, imitator);
    KeysOfTwo(p, id, x.info, y.info);
    IdOfNode(x, ByFolder, id);
    if id in Ids(y, ByFolder) {
      var q := PlaceOfId(y, imitator.path, ByFolder, [], id);
      PlaceOfExactly(all, p, id);
      assert (p, id) in PlacesOf(all);
      FolderInsertionsOk(v.folders);
      OnePlace(all, ByFolder, p, q, id);
      NotItsOwnPrefix(p, id);
    }
  }

  lemma IdOfNode(n: Tree, which: Which, id: string)
    requires id != "" && Id(n.info, which) == Some(id)
    ensures id in Ids(n, which)
  {
  }

  lemma NotItsOwnPrefix(p: Path, id: string)
    requires p != []
    ensures !(Imitation(p, id) <= p)
  {
    assert |Imitation(p, id)[|p| - 1]| > |p[|p| - 1]|;
  }

  lemma KeysOfTwo(p: Path, id: string, x: Info, y: Info)
    requires p != [] && IdentOf("folders", ByFolder, p, x) == Duplicate(p, id)
    requires GoodInfo(p, x, "folders", ByFolder)
    requires IdentOf("folders", ByFolder, Imitation(p, id), y) == Natural(Imitation(p, id))
    ensures x.key == y.key && Id(x, ByFolder) == Some(id)
  {
    ImitationSpells("folders", p, id);
  }

  lemma ClashIdents(folders: seq<FolderSummary>, i: nat, j: nat, k: nat)
    requires FoldersOk(folders) && FolderClash(folders, i, j, k)
    ensures var t := InsertAll(Node(FOLDERS_ROOT, [], 0), FolderInsertions(folders));
      var p, id := SplitPath(folders[j].name), folders[j].id;
      && Duplicate(p, id) in Idents(t, "folders", ByFolder)
      && Natural(Imitation(p, id)) in Idents(t, "folders", ByFolder)
  {
    var root, all := Node(FOLDERS_ROOT, [], 0), FolderInsertions(folders);
    var p, id := SplitPath(folders[j].name), folders[j].id;
    FolderInsertionsOk(folders);
    ClashInList(folders, i, j, k);
    hide *;
    IdentsExactly(root, all, ByFolder, Duplicate(p, id));
    IdentsExactly(root, all, ByFolder, Natural(Imitation(p, id)));
  }

  lemma ClashInList(folders: seq<FolderSummary>, i: nat, j: nat, k: nat)
    requires FolderClash(folders, i, j, k)
    ensures var all, p, id := FolderInsertions(folders), SplitPath(folders[j].name), folders[j].id;
      p != [] && Repeated(all, Duplicate(p, id)) && OnTheWay(all, Natural(Imitation(p, id)))
  {
    hide SplitPath;
    var all, p, id := FolderInsertions(folders), SplitPath(folders[j].name), folders[j].id;
    assert RepeatAt(all, i, j, Duplicate(p, id));
    assert Prefixes(all, k, Imitation(p, id));
  }

  /** Every folder count is right for every list of items exactly when no folder name imitates a repeated one's key. */
  lemma FolderCountsExactly(v: Vault, leq: NameOrder, order: CipherOrder)
    requires VaultOk(v)
    ensures AlwaysRight(v, leq, order) <==> !SomeFolderClash(v.folders)
  {
    if SomeFolderClash(v.folders) {
      var i: nat, j: nat, k: nat :| FolderClash(v.folders, i, j, k);
      ClashMiscounts(v, leq, order, i, j, k);
    } else {
      forall ciphers, index | IndexOf(index, ciphers) ensures CountsRight(v.(ciphers := ciphers), index, leq, order) {
        var w := v.(ciphers := ciphers);
        forall node | Within(node, TreeNo(w, index, leq, 0))
          ensures |ApplyVaultFilters(w.ciphers, Selecting(node, Trees(w, index, leq), order))| == node.itemCount
        {
          FolderCountIsShown(w, index, leq, order, node);
        }
      }
    }
  }

  // ---------------------------------------------- a collection counted twice

  function CollectionLeaf(id: string, org: string): Leaf {
    Leaf(None, Some(id), Some(org), Collection)
  }

  /** The parts of a tree with one chain of two nodes under its root. */
  lemma TwoInsertions(root: Tree, a: string, b: string, outer: Leaf, inner: Leaf)
    requires root.children == []
    ensures var all := [Insertion([a], outer), Insertion([a, b], inner)];
      var t, key := InsertAll(root, all), root.info.key + "/" + a;
      var leaf := Node(LeafInfo(key + "/" + b, b, inner, false), [], 0);
      t == root.(children := [Node(LeafInfo(key, a, outer, false), [leaf], 0)])
  {
    var one, two := Insertion([a], outer), Insertion([a, b], inner);
    var acc := root.info.key;
    var key := acc + "/" + a;
    var first := Node(LeafInfo(key, a, outer, false), [], 0);
    var t1 := root.(children := [first]);
    InsertAlone(root, a, outer, acc);
    InsertAlone(first, b, inner, key);
    InsertBelow(t1, first, a, b, inner, acc);
    assert [one, two][1..] == [two] && [two][1..] == [];
    hide InsertIntoTree;
    assert InsertAll(t1, [two]) == InsertAll(InsertIntoTree(t1, [a, b], inner, acc), []);
  }

  lemma InsertAlone(t: Tree, a: string, leaf: Leaf, acc: string)
    requires t.children == []
    ensures InsertIntoTree(t, [a], leaf, acc)
      == t.(children := [Node(LeafInfo(acc + "/" + a, a, leaf, false), [], 0)])
  {
    var c := Node(LeafInfo(acc + "/" + a, a, leaf, false), [], 0);
    assert [] + [c] == [c];
  }

  lemma InsertBelow(t: Tree, c: Tree, a: string, b: string, leaf: Leaf, acc: string)
    requires t.children == [c] && c.info.name == a
    ensures InsertIntoTree(t, [a, b], leaf, acc) == t.(children := [InsertIntoTree(c, [b], leaf, acc + "/" + a)])
  {
    var c' := InsertIntoTree(c, [b], leaf, acc + "/" + a);
    FirstIs([c], a, false, 0);
    assert [a, b][1..] == [b] && [c][0 := c'] == [c'];
  }

  /** Sorting and counting go down an only child. */
  lemma OnlyChildBuilt(t: Tree, c: Tree, which: Which, tally: map<string, nat>, leq: NameOrder)
    requires t.children == [c]
    ensures SortTree(WithCounts(t, which, tally), leq).children == [SortTree(WithCounts(c, which, tally), leq)]
  {
    var d := WithCounts(c, which, tally);
    var s := SortTree(d, leq);
    assert [c][1..] == [] && WithCountsAll([], which, tally) == [];
    assert WithCountsAll([c], which, tally) == [d] + [] == [d];
    assert [d][1..] == [] && SortAll([], leq) == [];
    assert SortAll([d], leq) == [s] + [] == [s];
    assert [s][1..] == [] && SortByName([], leq) == [];
    assert SortByName([s], leq) == InsertSorted(s, [], leq) == [s] + [] == [s];
  }

  lemma IdsOfChain(t: Tree, c: Tree, which: Which, a: string, b: string)
    requires t.children == [c] && c.children == [] && a != "" && b != ""
    requires Id(t.info, which) == Some(a) && Id(c.info, which) == Some(b)
    ensures a in Ids(t, which) && b in Ids(t, which)
  {
    var f, below := IdFact(which), [] + [c.info.name];
    GatherMember(t.children, 0, [], f);
    OwnAndBelow(t, [], f);
    OwnAndBelow(c, below, f);
    assert f([], t.info) == multiset{a} && f(below, c.info) == multiset{b};
    assert b in Gather(c, below, f);
    assert b in GatherAll(t.children, [], f);
  }

  /** One organization with the collections `a` and `a/b`, and one item in both: `a` says two and shows one. */
  lemma SharedItemCountsTwice(leq: NameOrder, order: CipherOrder, index: Index)
    returns (v: Vault, node: Tree)
    requires IndexOf(index, SharedVault().ciphers)
    ensures v == SharedVault() && VaultOk(v) && Within(node, TreeNo(v, index, leq, 1))
    ensures |ApplyVaultFilters(v.ciphers, Selecting(node, Trees(v, index, leq), order))| < node.itemCount
  {
    hide InsertIntoTree, InsertAll, SortTree, WithCounts, SplitPath, CollectionInsertions, Within, IndexOf, Gather;
    v := SharedVault();
    var org := v.orgs[0];
    var root, all := OrgRoot(org, index.byOrg), CollectionInsertions(v.collections, org.id);
    SharedInsertions();
    TwoInsertions(root, "a", "b", CollectionLeaf("c", "o"), CollectionLeaf("d", "o"));
    var grown := InsertAll(root, all);
    var outer := grown.children[0];
    OnlyChildBuilt(grown, outer, ByCollection, index.byCollection, leq);
    node := SortTree(WithCounts(outer, ByCollection, index.byCollection), leq);
    assert TreeNo(v, index, leq, 1).children == [node];
    ChildWithin(TreeNo(v, index, leq, 1), node);
    IdsOfChain(outer, outer.children[0], ByCollection, "c", "d");
    BuiltGather(outer, ByCollection, index.byCollection, leq, IdFact(ByCollection));
    SharedIsOk();
    hide TreeNo, SomeClash;
    assert node.info.kind == Collection by {
      SortKeepsInfo(outer, ByCollection, index.byCollection, leq);
    }
    CountedTwice(v, index, leq, order, 1, node, 0, 0, 1);
  }

  lemma ChildWithin(t: Tree, c: Tree)
    requires t.children == [c]
    ensures Within(c, t)
  {
    assert Within(c, t.children[0]);
  }

  lemma SortKeepsInfo(t: Tree, which: Which, tally: map<string, nat>, leq: NameOrder)
    ensures SortTree(WithCounts(t, which, tally), leq).info == t.info
  {
  }

  function SharedVault(): Vault {
    Vault(
      [], [OrganizationSummary("o", "Org")],
      [CollectionSummary("c", "o", "a"), CollectionSummary("d", "o", "a/b")],
      [CipherSummary("x", 0, false, None, None, Some("o"), ["c", "d"])])
  }

  lemma SharedInsertions()
    ensures CollectionInsertions(SharedVault().collections, "o")
      == [Insertion(["a"], CollectionLeaf("c", "o")), Insertion(["a", "b"], CollectionLeaf("d", "o"))]
  {
    SharedPaths();
    hide SplitPath;
  }

  lemma SharedPaths()
    ensures SplitPath("a") == ["a"] && SplitPath("a/b") == ["a", "b"]
  {
    TrimmedNames();
    OneSegment("a");
    hide Text.Trim;
    assert "a/b" == "a" + ['/'] + "b";
    Text.SplitConcat("a", "b", '/');
    Text.SplitWhole("a", '/');
    Text.SplitWhole("b", '/');
    assert ["a", "b"][1..] == ["b"] && ["b"][1..] == [] && TrimmedNonEmpty([]) == [];
    assert TrimmedNonEmpty(["b"]) == ["b"];
  }

  lemma TrimmedNames()
    ensures Text.Trim("a", Text.JsSpaces) == "a" && Text.Trim("b", Text.JsSpaces) == "b"
  {
  }

  /** Two different paths: nothing is repeated, so nothing clashes. */
  lemma SharedIsOk()
    ensures VaultOk(SharedVault()) && !SomeClash(InsertionsOf(SharedVault(), 1))
    ensures var live := Live(SharedVault().ciphers); |live| == 1 && live[0].collectionIds == ["c", "d"]
  {
    var v := SharedVault();
    SharedInsertions();
    hide SplitPath, CollectionInsertions;
    assert "a" != "b" && ["a"] != ["a", "b"] by {
      assert |["a"]| != |["a", "b"]|;
    }
    WhereCons(v.ciphers[0], [], IsLive);
    assert [v.ciphers[0]] + [] == v.ciphers && IsLive(v.ciphers[0]);
  }
}
