/** Main results on the trees the sidebar shows: buildFolderTree and buildOrgTrees against applyVaultFilters. */
module VaultTrees {
  import opened Optional
  import opened Text
  import opened Tree
  import opened TreeShape
  import opened TreeIdents
  import opened Filter
  import opened Sidebar

  /** Distinct non-empty ids. */
  predicate FoldersOk(folders: seq<FolderSummary>) {
    && (forall i :: 0 <= i < |folders| ==> folders[i].id != "")
    && (forall i, j :: 0 <= i < j < |folders| ==> folders[i].id != folders[j].id)
  }

  predicate CollectionsOk(collections: seq<CollectionSummary>) {
    && (forall i :: 0 <= i < |collections| ==> collections[i].id != "")
    && (forall i, j :: 0 <= i < j < |collections| ==> collections[i].id != collections[j].id)
  }

  predicate OrgsOk(orgs: seq<OrganizationSummary>) {
    && (forall i :: 0 <= i < |orgs| ==> Plain(orgs[i].id))
    && (forall i, j :: 0 <= i < j < |orgs| ==> orgs[i].id != orgs[j].id)
  }

  // ---------------------------------------------------------- whole insertions

  function InsertedId(ins: Insertion): string {
    if TagId(ins.leaf).Some? then TagId(ins.leaf).value else ""
  }

  predicate InsertionsOk(all: seq<Insertion>, which: Which) {
    && (forall i :: 0 <= i < |all| ==> LeafOf(all[i].leaf, which, InsertedId(all[i])) && AllSegments(all[i].segments))
    && (forall i, j :: 0 <= i < j < |all| ==> InsertedId(all[i]) != InsertedId(all[j]))
  }

  /** Where each id inserted under a non-empty path belongs. */
  ghost function PlacesOf(all: seq<Insertion>): multiset<(Path, string)> {
    if all == [] then multiset{}
    else
      (if all[0].segments == [] then multiset{} else multiset{(all[0].segments, InsertedId(all[0]))})
      + PlacesOf(all[1..])
  }

  ghost function IdsOf(all: seq<Insertion>): multiset<string> {
    if all == [] then multiset{}
    else (if all[0].segments == [] then multiset{} else multiset{InsertedId(all[0])}) + IdsOf(all[1..])
  }

  lemma InsertOneKeeps(t: Tree, ins: Insertion, which: Which)
    requires Good(t, t.info.key, which)
    requires LeafOf(ins.leaf, which, InsertedId(ins)) && AllSegments(ins.segments)
    ensures var t' := InsertIntoTree(t, ins.segments, ins.leaf, t.info.key);
            && t'.info == t.info && t'.itemCount == t.itemCount && Good(t', t.info.key, which)
            && Places(t', which) == Places(t, which) + PlacesOf([ins])
            && Ids(t', which) == Ids(t, which) + IdsOf([ins])
  {
    var id := InsertedId(ins);
    InsertGood(t, ins.segments, ins.leaf, t.info.key, which, id);
    InsertKeepsInfo(t, ins.segments, ins.leaf, t.info.key);
    assert [ins][1..] == [];
    if ins.segments != [] {
      InsertPlaces(t, ins.segments, ins.leaf, t.info.key, which, id);
    }
  }

  lemma {:induction false} InsertAllKeeps(t: Tree, all: seq<Insertion>, which: Which)
    requires Good(t, t.info.key, which)
    requires forall i :: 0 <= i < |all| ==>
      LeafOf(all[i].leaf, which, InsertedId(all[i])) && AllSegments(all[i].segments)
    ensures var t' := InsertAll(t, all);
            && t'.info == t.info && t'.itemCount == t.itemCount && Good(t', t.info.key, which)
            && Places(t', which) == Places(t, which) + PlacesOf(all)
            && Ids(t', which) == Ids(t, which) + IdsOf(all)
    decreases |all|
  {
    if all != [] {
      InsertOneKeeps(t, all[0], which);
      InsertAllKeeps(InsertIntoTree(t, all[0].segments, all[0].leaf, t.info.key), all[1..], which);
      assert [all[0]][1..] == [];
    }
  }

  lemma {:induction false} IdsOfMember(all: seq<Insertion>, id: string) returns (i: nat)
    requires id in IdsOf(all)
    ensures i < |all| && InsertedId(all[i]) == id
  {
    if id in IdsOf(all[1..]) {
      i := IdsOfMember(all[1..], id);
      i := i + 1;
    } else {
      i := 0;
    }
  }

  lemma {:induction false} IdsOfUnique(all: seq<Insertion>)
    requires forall i, j :: 0 <= i < j < |all| ==> InsertedId(all[i]) != InsertedId(all[j])
    ensures Unique(IdsOf(all))
  {
    if all != [] {
      IdsOfUnique(all[1..]);
      forall id ensures IdsOf(all)[id] <= 1 {
        if id in IdsOf(all[1..]) {
          var i := IdsOfMember(all[1..], id);
          assert InsertedId(all[0]) != InsertedId(all[i + 1]);
        }
      }
    }
  }

  /**
   * In creation order: every id inserted under a non-empty path sits on exactly one node, at its path; siblings of one
   * name are one synthetic node or only real ones, the first with the natural key and all the descendants.
   */
  lemma InsertedShape(root: Tree, all: seq<Insertion>, which: Which)
    requires root.children == [] && Id(root.info, which).None? && InsertionsOk(all, which)
    ensures var t := InsertAll(root, all);
            && t.info == root.info && t.itemCount == root.itemCount && Good(t, root.info.key, which)
            && Places(t, which) == PlacesOf(all) && Ids(t, which) == IdsOf(all) && Unique(Ids(t, which))
  {
    var t := InsertAll(root, all);
    InsertAllKeeps(root, all, which);
    IdsOfUnique(all);
    assert IdFact(which)([], root.info) == multiset{} && PlaceFact(which)([], root.info) == multiset{};
    assert Gather(root, [], IdFact(which)) == IdFact(which)([], root.info) + GatherAll([], [], IdFact(which));
    assert Gather(root, [], PlaceFact(which)) == PlaceFact(which)([], root.info) + GatherAll([], [], PlaceFact(which));
    assert Ids(t, which) == IdsOf(all) && Places(t, which) == PlacesOf(all);
  }

  // -------------------------------------------------------- when keys are unique

  predicate PlainIds(all: seq<Insertion>) {
    forall i :: 0 <= i < |all| ==> Plain(InsertedId(all[i]))
  }

  /** Insertions `i` and `j` have one path, and name `k` imitates there the id of the later one. */
  predicate KeyClash(all: seq<Insertion>, i: nat, j: nat, k: nat) {
    && i < j < |all| && k < |all| && all[i].segments == all[j].segments != []
    && Imitation(all[j].segments, InsertedId(all[j])) <= all[k].segments
  }

  ghost predicate SomeClash(all: seq<Insertion>) {
    exists i: nat, j: nat, k: nat :: KeyClash(all, i, j, k)
  }

  predicate Prefixes(all: seq<Insertion>, k: nat, p: Path) {
    k < |all| && p <= all[k].segments
  }

  /** The node is the first on the way of some insertion. */
  ghost predicate OnTheWay(all: seq<Insertion>, x: Ident) {
    x.Natural? && x.path != [] && exists k: nat :: Prefixes(all, k, x.path)
  }

  predicate RepeatAt(all: seq<Insertion>, i: nat, j: nat, x: Ident) {
    && i < j < |all| && all[i].segments == all[j].segments != []
    && x == Duplicate(all[j].segments, InsertedId(all[j]))
  }

  ghost predicate Repeated(all: seq<Insertion>, x: Ident) {
    exists i: nat, j: nat :: RepeatAt(all, i, j, x)
  }

  lemma {:induction false} InsertAllLast(t: Tree, all: seq<Insertion>)
    requires all != []
    ensures var before, last := InsertAll(t, all[..|all| - 1]), all[|all| - 1];
      && before.info == t.info
      && InsertAll(t, all) == InsertIntoTree(before, last.segments, last.leaf, t.info.key)
    decreases |all|
  {
    var t1 := InsertIntoTree(t, all[0].segments, all[0].leaf, t.info.key);
    InsertKeepsInfo(t, all[0].segments, all[0].leaf, t.info.key);
    if |all| > 1 {
      InsertAllLast(t1, all[1..]);
      assert all[1..][..|all| - 2] == all[..|all| - 1][1..];
    }
  }

  lemma {:induction false} PlaceOfExactly(all: seq<Insertion>, p: Path, id: string)
    ensures (p, id) in PlacesOf(all)
      <==> exists i: nat :: i < |all| && all[i].segments == p != [] && InsertedId(all[i]) == id
    decreases |all|
  {
    if all != [] {
      PlaceOfExactly(all[1..], p, id);
      if i: nat :| i < |all| && all[i].segments == p != [] && InsertedId(all[i]) == id {
        if i > 0 {
          assert all[1..][i - 1] == all[i];
        }
      }
      if i: nat :| i < |all[1..]| && all[1..][i].segments == p != [] && InsertedId(all[1..][i]) == id {
        assert all[i + 1].segments == p;
      }
    }
  }

  lemma TakenExactly(root: Tree, all: seq<Insertion>, which: Which, p: Path)
    requires root.children == [] && Id(root.info, which).None? && InsertionsOk(all, which) && p != []
    ensures RealAt(InsertAll(root, all), [], p, which) <==> exists i: nat :: i < |all| && all[i].segments == p
  {
    InsertedShape(root, all, which);
    if i: nat :| i < |all| && all[i].segments == p {
      PlaceOfExactly(all, p, InsertedId(all[i]));
      assert (p, InsertedId(all[i])) in Gather(InsertAll(root, all), [], PlaceFact(which));
    }
    if RealAt(InsertAll(root, all), [], p, which) {
      var id :| (p, id) in Gather(InsertAll(root, all), [], PlaceFact(which));
      PlaceOfExactly(all, p, id);
    }
  }

  /** The nodes are exactly the root, one on the way of each path, and one more for each repetition of a path. */
  lemma {:induction false} IdentsExactly(root: Tree, all: seq<Insertion>, which: Which, x: Ident)
    requires root.children == [] && Id(root.info, which).None? && InsertionsOk(all, which)
    ensures x in Idents(InsertAll(root, all), root.info.key, which)
      <==> x == Natural([]) || OnTheWay(all, x) || Repeated(all, x)
    decreases |all|
  {
    if all == [] {
      LoneNode(root, [], IdentFact(root.info.key, which));
    } else {
      var front, last := all[..|all| - 1], all[|all| - 1];
      var before, id := InsertAll(root, front), InsertedId(last);
      IdentsExactly(root, front, which, x);
      InsertAllLast(root, all);
      InsertedShape(root, front, which);
      LastIdents(all, x);
      if last.segments != [] {
        InsertIdents(before, last.segments, last.leaf, root.info.key, which, id, [], x);
        TakenExactly(root, front, which, last.segments);
        assert [] + last.segments == last.segments;
      }
    }
  }

  ghost predicate RepeatsLast(all: seq<Insertion>, x: Ident)
    requires all != []
  {
    var front, last := all[..|all| - 1], all[|all| - 1];
    && last.segments != [] && x == Duplicate(last.segments, InsertedId(last))
    && exists i: nat :: i < |front| && front[i].segments == last.segments
  }

  lemma LastIdents(all: seq<Insertion>, x: Ident)
    requires all != []
    ensures var front, last := all[..|all| - 1], all[|all| - 1];
      && (OnTheWay(all, x) <==> OnTheWay(front, x) || (x.Natural? && [] <= x.path <= last.segments && x.path != []))
      && (Repeated(all, x) <==> Repeated(front, x) || RepeatsLast(all, x))
  {
    var front, n: nat := all[..|all| - 1], |all| - 1;
    assert forall i: nat :: i < n ==> front[i] == all[i];
    if OnTheWay(all, x) {
      var k: nat :| Prefixes(all, k, x.path);
      assert k < n ==> Prefixes(front, k, x.path);
    }
    if OnTheWay(front, x) {
      var k: nat :| Prefixes(front, k, x.path);
      assert Prefixes(all, k, x.path);
    }
    if x.Natural? && x.path <= all[n].segments {
      assert Prefixes(all, n, x.path);
    }
    if Repeated(all, x) {
      var i: nat, j: nat :| RepeatAt(all, i, j, x);
      assert j < n ==> RepeatAt(front, i, j, x);
      assert j == n ==> front[i].segments == all[n].segments;
    }
    if Repeated(front, x) {
      var i: nat, j: nat :| RepeatAt(front, i, j, x);
      assert RepeatAt(all, i, j, x);
    }
    if all[n].segments != [] && x == Duplicate(all[n].segments, InsertedId(all[n])) {
      if i: nat :| i < n && front[i].segments == all[n].segments {
        assert RepeatAt(all, i, n, x);
      }
    }
  }

  lemma ImitationIsClash(root: Tree, all: seq<Insertion>, which: Which)
    requires root.children == [] && Id(root.info, which).None? && InsertionsOk(all, which)
    ensures SomeImitation(InsertAll(root, all), root.info.key, which) <==> SomeClash(all)
  {
    hide Idents, InsertAll, InsertionsOk;
    var t, key := InsertAll(root, all), root.info.key;
    if SomeImitation(t, key, which) {
      var x: Ident :| x.Duplicate? && x in Idents(t, key, which) && x.path != []
        && Natural(Imitation(x.path, x.id)) in Idents(t, key, which);
      IdentsExactly(root, all, which, x);
      IdentsExactly(root, all, which, Natural(Imitation(x.path, x.id)));
      var i: nat, j: nat :| RepeatAt(all, i, j, x);
      var k: nat :| Prefixes(all, k, Imitation(x.path, x.id));
      assert KeyClash(all, i, j, k);
    }
    if SomeClash(all) {
      var i: nat, j: nat, k: nat :| KeyClash(all, i, j, k);
      var x := Duplicate(all[j].segments, InsertedId(all[j]));
      var y := Natural(Imitation(x.path, x.id));
      IdentsExactly(root, all, which, x);
      IdentsExactly(root, all, which, y);
      assert RepeatAt(all, i, j, x) && Prefixes(all, k, y.path);
    }
  }

  /**
   * All keys of a grown tree differ exactly when no name imitates, with a `#` and an id, the key of a second folder at
   * one path.
   */
  lemma InsertedKeysExactly(root: Tree, all: seq<Insertion>, which: Which)
    requires root.children == [] && Id(root.info, which).None? && InsertionsOk(all, which) && PlainIds(all)
    ensures Unique(Keys(InsertAll(root, all))) <==> !SomeClash(all)
  {
    var t := InsertAll(root, all);
    InsertedShape(root, all, which);
    forall id | id in Ids(t, which) ensures Plain(id) {
      var i := IdsOfMember(all, id);
    }
    GoodIsWellKeyed(t, which);
    KeysUniqueExactly(t, root.info.key, which);
    ImitationIsClash(root, all, which);
  }

  lemma FolderInsertionsOk(folders: seq<FolderSummary>)
    requires FoldersOk(folders)
    ensures InsertionsOk(FolderInsertions(folders), ByFolder)
  {
  }

  lemma CollectionInsertionsOk(collections: seq<CollectionSummary>, org: string)
    requires CollectionsOk(collections)
    ensures InsertionsOk(CollectionInsertions(collections, org), ByCollection)
  {
  }

  /** A finished tree: every node below the root spells its path in its key. */
  ghost predicate Spelled(t: Tree, root: Info, which: Which) {
    && t.info == root
    && forall p, i :: (p, i) in Gather(t, [], InfoFact) ==> (p, i) == ([], root) || GoodInfo(p, i, root.key, which)
  }

  lemma BuiltGather<X>(t: Tree, which: Which, tally: map<string, nat>, leq: NameOrder, f: Fact<X>)
    ensures Gather(SortTree(WithCounts(t, which, tally), leq), [], f) == Gather(t, [], f)
  {
    GatherWithCounts(t, which, tally, [], f);
    GatherSortTree(WithCounts(t, which, tally), leq, [], f);
  }

  /** Counting and sorting leave ids, places, keys and paths as the insertions made them. */
  lemma BuiltShape(root: Tree, all: seq<Insertion>, which: Which, tally: map<string, nat>, leq: NameOrder)
    requires root.children == [] && Id(root.info, which).None? && InsertionsOk(all, which)
    ensures var t := SortTree(WithCounts(InsertAll(root, all), which, tally), leq);
            && Places(t, which) == PlacesOf(all) && Unique(Ids(t, which)) && Spelled(t, root.info, which)
            && Keys(t) == Keys(InsertAll(root, all))
  {
    var t0 := InsertAll(root, all);
    var t := SortTree(WithCounts(t0, which, tally), leq);
    InsertedShape(root, all, which);
    BuiltGather(t0, which, tally, leq, PlaceFact(which));
    BuiltGather(t0, which, tally, leq, IdFact(which));
    BuiltGather(t0, which, tally, leq, KeyFact);
    BuiltGather(t0, which, tally, leq, InfoFact);
    forall p, i | (p, i) in Gather(t, [], InfoFact)
      ensures (p, i) == ([], root.info) || GoodInfo(p, i, root.info.key, which)
    {
      GoodInfos(t0, root.info.key, which, [], p, i);
      assert p[0..] == p;
    }
  }

  lemma FolderTreeBuilt(folders: seq<FolderSummary>, byFolder: map<string, nat>, leq: NameOrder)
    requires FoldersOk(folders)
    ensures var t := BuildFolderTree(folders, byFolder, leq);
            && Places(t, ByFolder) == PlacesOf(FolderInsertions(folders)) && Unique(Ids(t, ByFolder))
            && Spelled(t, FOLDERS_ROOT, ByFolder)
  {
    FolderInsertionsOk(folders);
    BuiltShape(Node(FOLDERS_ROOT, [], 0), FolderInsertions(folders), ByFolder, byFolder, leq);
  }

  /** Folders `i` and `j` have one path, and folder `k` lies at or below that path followed by `#` and the id of `j`. */
  predicate FolderClash(folders: seq<FolderSummary>, i: nat, j: nat, k: nat) {
    && i < j < |folders| && k < |folders|
    && var path := SplitPath(folders[j].name);
       SplitPath(folders[i].name) == path != [] && Imitation(path, folders[j].id) <= SplitPath(folders[k].name)
  }

  ghost predicate SomeFolderClash(folders: seq<FolderSummary>) {
    exists i: nat, j: nat, k: nat :: FolderClash(folders, i, j, k)
  }

  lemma FolderClashes(folders: seq<FolderSummary>)
    ensures SomeFolderClash(folders) <==> SomeClash(FolderInsertions(folders))
  {
    hide SplitPath, Imitation;
    var all := FolderInsertions(folders);
    if i: nat, j: nat, k: nat :| FolderClash(folders, i, j, k) {
      assert KeyClash(all, i, j, k);
    }
    if i: nat, j: nat, k: nat :| KeyClash(all, i, j, k) {
      assert FolderClash(folders, i, j, k);
    }
  }

  /** The keys of the folder tree all differ exactly when no folder's name imitates the key of a repeated path. */
  lemma FolderKeysExactly(folders: seq<FolderSummary>, byFolder: map<string, nat>, leq: NameOrder)
    requires FoldersOk(folders) && forall i :: 0 <= i < |folders| ==> Plain(folders[i].id)
    ensures Unique(Keys(BuildFolderTree(folders, byFolder, leq))) <==> !SomeFolderClash(folders)
  {
    var root, all := Node(FOLDERS_ROOT, [], 0), FolderInsertions(folders);
    FolderInsertionsOk(folders);
    InsertedKeysExactly(root, all, ByFolder);
    BuiltShape(root, all, ByFolder, byFolder, leq);
    FolderClashes(folders);
  }

  lemma OneSegment(name: string)
    requires '/' !in name && name != "" && Trim(name, JsSpaces) == name
    ensures SplitPath(name) == [name]
  {
    hide Trim, Split;
    SplitWhole(name, '/');
    assert [name][1..] == [] && TrimmedNonEmpty([]) == [];
    assert TrimmedNonEmpty([name]) == [name];
  }

  /** Two folders named `a` and one named `a#x`, where the second has the id `x`: two nodes of the tree share a key. */
  lemma HashInNameCollides(byFolder: map<string, nat>, leq: NameOrder) returns (folders: seq<FolderSummary>)
    ensures folders == [FolderSummary("y", "a"), FolderSummary("x", "a"), FolderSummary("z", "a#x")]
    ensures FoldersOk(folders) && !Unique(Keys(BuildFolderTree(folders, byFolder, leq)))
  {
    folders := [FolderSummary("y", "a"), FolderSummary("x", "a"), FolderSummary("z", "a#x")];
    ThreeNamesClash(folders);
    hide SomeFolderClash, BuildFolderTree, Keys, Plain;
    FolderKeysExactly(folders, byFolder, leq);
  }

  lemma ThreeNamesClash(folders: seq<FolderSummary>)
    requires folders == [FolderSummary("y", "a"), FolderSummary("x", "a"), FolderSummary("z", "a#x")]
    ensures FoldersOk(folders) && SomeFolderClash(folders) && forall i :: 0 <= i < |folders| ==> Plain(folders[i].id)
  {
    hide SplitPath, Trim;
    OneSegment("a") by { ShortNames(); }
    OneSegment("a#x") by { ShortNames(); }
    assert "a" + "#" + "x" == "a#x" && ["a"][..0] == [];
    assert Imitation(["a"], "x") == ["a#x"];
    assert FolderClash(folders, 0, 1, 2);
  }

  lemma ShortNames()
    ensures Trim("a", JsSpaces) == "a" && Trim("a#x", JsSpaces) == "a#x"
  {
  }

  // ------------------------------------------------------ from a key to a path

  /** A natural key decodes to its path exactly when the path has no `#`. */
  lemma NaturalKeyDecodes(path: Path)
    requires path != []
    ensures FolderPathFromKey(NaturalKey("folders", path)) == Some(Join(path, "/")) <==> '#' !in Join(path, "/")
  {
    var spelled := Join(path, "/");
    var key := "folders" + "/" + spelled;
    assert key[..|FOLDERS_ROOT_PREFIX|] == FOLDERS_ROOT_PREFIX && key[|FOLDERS_ROOT_PREFIX|..] == spelled;
  }

  /** The key of a repeated path always decodes when the id has no `#` of its own. */
  lemma DuplicateKeyDecodes(path: Path, id: string)
    requires path != [] && '#' !in id
    ensures FolderPathFromKey(Spell("folders", Duplicate(path, id))) == Some(Join(path, "/"))
  {
    var spelled := Join(path, "/");
    var key := "folders" + "/" + spelled + "#" + id;
    LastHashOf(spelled, id);
    assert key[..|FOLDERS_ROOT_PREFIX|] == FOLDERS_ROOT_PREFIX;
    assert key[|FOLDERS_ROOT_PREFIX|..] == spelled + "#" + id && (spelled + "#" + id)[..|spelled|] == spelled;
  }

  /** In the folder tree a node's key gives back its path exactly for repeated paths and for paths without a `#`. */
  lemma FolderKeysDecode(folders: seq<FolderSummary>, byFolder: map<string, nat>, leq: NameOrder, p: Path, i: Info)
    requires FoldersOk(folders) && (p, i) in Gather(BuildFolderTree(folders, byFolder, leq), [], InfoFact) && p != []
    requires i.folderId.Some? ==> '#' !in i.folderId.value
    ensures FolderPathFromKey(i.key) == Some(Join(p, "/"))
      <==> i.key != NaturalKey("folders", p) || '#' !in Join(p, "/")
  {
    FolderTreeBuilt(folders, byFolder, leq);
    NaturalKeyDecodes(p);
    if i.key != NaturalKey("folders", p) {
      DuplicateKeyDecodes(p, i.folderId.value);
    }
  }

  /** A folder named `C#`: what is dragged is the folder `C`. */
  lemma HashNameDecodesWrong()
    ensures FolderPathFromKey(NaturalKey("folders", ["C#"])) == Some("C")
  {
    var key := "folders/C#";
    assert Join(["C#"], "/") == "C#";
    assert "folders" + "/" + "C#" == key;
    assert key[..|FOLDERS_ROOT_PREFIX|] == FOLDERS_ROOT_PREFIX && key[|FOLDERS_ROOT_PREFIX|..] == "C#"
      && "C#"[..1] == "C";
    assert LastHash("C#") == 1;
  }

  // ------------------------------------------------------- organization trees

  /** An organization's root keeps its own count; everything below is a collection node at its path. */
  lemma OrgTreeBuilt(
    org: OrganizationSummary, collections: seq<CollectionSummary>,
    byOrg: map<string, nat>, byCollection: map<string, nat>, leq: NameOrder)
    requires CollectionsOk(collections)
    ensures var t := BuildOrgTree(org, collections, byOrg, byCollection, leq);
            var root := OrgRoot(org, byOrg);
            && t.itemCount == root.itemCount && Spelled(t, root.info, ByCollection)
            && Places(t, ByCollection) == PlacesOf(CollectionInsertions(collections, org.id))
  {
    CollectionInsertionsOk(collections, org.id);
    InsertedShape(OrgRoot(org, byOrg), CollectionInsertions(collections, org.id), ByCollection);
    BuiltShape(OrgRoot(org, byOrg), CollectionInsertions(collections, org.id), ByCollection, byCollection, leq);
  }

  // ------------------------------------------------- keys across all the trees

  lemma {:induction false} KeyHasInfo(t: Tree, path: Path, key: string) returns (p: Path, i: Info)
    requires key in Gather(t, path, KeyFact)
    ensures (p, i) in Gather(t, path, InfoFact) && i.key == key
    decreases t
  {
    if key == t.info.key {
      p, i := path, t.info;
    } else {
      var j := GatherAllMember(t.children, path, KeyFact, key);
      p, i := KeyHasInfo(t.children[j], path + [t.children[j].info.name], key);
      GatherMember(t.children, j, path, InfoFact);
    }
  }

  /** All keys of a built tree are the root's key or continue it. */
  lemma TreeKeys(t: Tree, root: Info, which: Which, path: Path, key: string)
    requires Spelled(t, root, which) && key in Gather(t, path, KeyFact)
    ensures Under(key, root.key)
  {
    KeysAnyPath(t, path, []);
    var p, i := KeyHasInfo(t, [], key);
    if (p, i) != ([], root) {
      assert root.key + "/" <= root.key + "/" + Join(p, "/") <= key;
    }
  }

  lemma {:induction false} KeysAnyPath(t: Tree, p: Path, q: Path)
    ensures Gather(t, p, KeyFact) == Gather(t, q, KeyFact)
    decreases t, 1
  {
    KeysAnyPathAll(t.children, p, q);
  }

  lemma {:induction false} KeysAnyPathAll(cs: seq<Tree>, p: Path, q: Path)
    ensures GatherAll(cs, p, KeyFact) == GatherAll(cs, q, KeyFact)
    decreases cs, 0
  {
    if cs != [] {
      KeysAnyPath(cs[0], p + [cs[0].info.name], q + [cs[0].info.name]);
      KeysAnyPathAll(cs[1..], p, q);
    }
  }

  /** What the sidebar is built from. */
  datatype Vault = Vault(
    folders: seq<FolderSummary>, orgs: seq<OrganizationSummary>, collections: seq<CollectionSummary>,
      ciphers: seq<CipherSummary>)

  datatype Index = Index(byFolder: map<string, nat>, byCollection: map<string, nat>, byOrg: map<string, nat>)

  /** Ids as the server makes them: distinct, not empty, without the characters the keys are put together with. */
  predicate VaultOk(v: Vault) {
    && FoldersOk(v.folders) && OrgsOk(v.orgs) && CollectionsOk(v.collections)
    && (forall i :: 0 <= i < |v.folders| ==> Plain(v.folders[i].id))
    && forall i :: 0 <= i < |v.collections| ==> Plain(v.collections[i].id)
  }

  function InsertionsOf(v: Vault, k: nat): seq<Insertion>
    requires k <= |v.orgs|
  {
    if k == 0 then FolderInsertions(v.folders) else CollectionInsertions(v.collections, v.orgs[k - 1].id)
  }

  /** In none of the trees does a name imitate the key of a repeated path. */
  ghost predicate NoClash(v: Vault) {
    forall k :: 0 <= k <= |v.orgs| ==> !SomeClash(InsertionsOf(v, k))
  }

  /** The index `BuildCipherIndex` computes. */
  ghost predicate IndexOf(index: Index, ciphers: seq<CipherSummary>) {
    && Tallies(index.byFolder, Live(ciphers), FolderTags)
    && Tallies(index.byCollection, Live(ciphers), CollectionTags)
    && Tallies(index.byOrg, Live(ciphers), OrgTags)
  }

  /** The folder tree, then one tree for each organization. */
  function TreeNo(v: Vault, index: Index, leq: NameOrder, k: nat): Tree
    requires k <= |v.orgs|
  {
    if k == 0 then BuildFolderTree(v.folders, index.byFolder, leq)
    else BuildOrgTree(v.orgs[k - 1], v.collections, index.byOrg, index.byCollection, leq)
  }

  function Trees(v: Vault, index: Index, leq: NameOrder): (trees: seq<Tree>)
    ensures |trees| == 1 + |v.orgs| && forall k :: 0 <= k <= |v.orgs| ==> trees[k] == TreeNo(v, index, leq, k)
  {
    seq(1 + |v.orgs|, k requires 0 <= k <= |v.orgs| => TreeNo(v, index, leq, k))
  }

  function RootOf(v: Vault, index: Index, k: nat): Info
    requires k <= |v.orgs|
  {
    if k == 0 then FOLDERS_ROOT else OrgRoot(v.orgs[k - 1], index.byOrg).info
  }

  function WhichOf(k: nat): Which {
    if k == 0 then ByFolder else ByCollection
  }

  lemma TreeAt(v: Vault, index: Index, leq: NameOrder, k: nat)
    requires VaultOk(v) && k <= |v.orgs|
    ensures Spelled(TreeNo(v, index, leq, k), RootOf(v, index, k), WhichOf(k))
  {
    if k == 0 {
      FolderTreeBuilt(v.folders, index.byFolder, leq);
    } else {
      OrgTreeBuilt(v.orgs[k - 1], v.collections, index.byOrg, index.byCollection, leq);
    }
  }

  lemma TreeKeysExactly(v: Vault, index: Index, leq: NameOrder, k: nat)
    requires VaultOk(v) && k <= |v.orgs|
    ensures Unique(FactsOf(Trees(v, index, leq), k, [], KeyFact)) <==> !SomeClash(InsertionsOf(v, k))
  {
    var t := TreeNo(v, index, leq, k);
    KeysAnyPath(t, [] + [t.info.name], []);
    var all := InsertionsOf(v, k);
    if k == 0 {
      FolderInsertionsOk(v.folders);
      InsertedKeysExactly(Node(FOLDERS_ROOT, [], 0), all, ByFolder);
      BuiltShape(Node(FOLDERS_ROOT, [], 0), all, ByFolder, index.byFolder, leq);
    } else {
      var root := OrgRoot(v.orgs[k - 1], index.byOrg);
      CollectionInsertionsOk(v.collections, v.orgs[k - 1].id);
      InsertedKeysExactly(root, all, ByCollection);
      BuiltShape(root, all, ByCollection, index.byCollection, leq);
    }
  }

  /** No key occurs twice anywhere in the sidebar exactly when none does within one tree. */
  lemma AllKeysUnique(v: Vault, index: Index, leq: NameOrder)
    requires VaultOk(v)
    ensures Unique(GatherAll(Trees(v, index, leq), [], KeyFact)) <==> NoClash(v)
  {
    hide Gather, GatherAll, SomeClash, TreeNo;
    var ts := Trees(v, index, leq);
    forall k: nat | k < |ts|
      ensures Unique(FactsOf(ts, k, [], KeyFact)) <==> !SomeClash(InsertionsOf(v, k))
      ensures FactsOf(ts, k, [], KeyFact) <= GatherAll(ts, [], KeyFact)
    {
      TreeKeysExactly(v, index, leq, k);
      GatherMember(ts, k, [], KeyFact);
    }
    if NoClash(v) {
      forall i: nat, j: nat, key | i < j < |ts| && key in FactsOf(ts, i, [], KeyFact)
        ensures key !in FactsOf(ts, j, [], KeyFact)
      {
        TreesApart(v, index, leq, i, j, key);
      }
      PairwiseUnique(ts, |ts|, [], KeyFact);
      assert ts[..|ts|] == ts;
    }
    if Unique(GatherAll(ts, [], KeyFact)) {
      forall k: nat | k < |ts| ensures !SomeClash(InsertionsOf(v, k)) {
        SubUnique(FactsOf(ts, k, [], KeyFact), GatherAll(ts, [], KeyFact));
      }
    }
  }

  lemma TreesApart(v: Vault, index: Index, leq: NameOrder, i: nat, j: nat, key: string)
    requires VaultOk(v) && i < j <= |v.orgs|
    requires var t := TreeNo(v, index, leq, i); key in Gather(t, [] + [t.info.name], KeyFact)
    ensures var t := TreeNo(v, index, leq, j); key !in Gather(t, [] + [t.info.name], KeyFact)
  {
    var a, b := TreeNo(v, index, leq, i), TreeNo(v, index, leq, j);
    TreeAt(v, index, leq, i);
    TreeAt(v, index, leq, j);
    TreeKeys(a, RootOf(v, index, i), WhichOf(i), [] + [a.info.name], key);
    var orgB := v.orgs[j - 1].id;
    if i > 0 {
      NameOfKey("org/", v.orgs[i - 1].id, key);
    } else {
      assert key[0] == 'f';
    }
    if key in Gather(b, [] + [b.info.name], KeyFact) {
      TreeKeys(b, RootOf(v, index, j), ByCollection, [] + [b.info.name], key);
      NameOfKey("org/", orgB, key);
    }
  }

  // ------------------------------------------- the counts against the filter

  /** Selecting a node, with the filter on "all" and no search text. */
  function Selecting(node: Tree, trees: seq<Tree>, order: CipherOrder): Options {
    Options(All, Some(node.info.key), trees, None, order)
  }

  /** Where the key leads to the node, selecting it applies that node's own filter to the live items. */
  lemma SelectedShows(ciphers: seq<CipherSummary>, trees: seq<Tree>, order: CipherOrder, node: Tree)
    requires FindNode(trees, node.info.key) == Some(node) && node.info.key != ""
    ensures |ApplyVaultFilters(ciphers, Selecting(node, trees, order))| == |FilterByTreeNode(Live(ciphers), node)|
  {
    AllIsLive(ciphers);
    var shown := FilterByTreeNode(Live(ciphers), node);
    assert |multiset(SortCiphers(shown, order))| == |multiset(shown)|;
  }

  lemma {:induction false} AllIsLive(items: seq<CipherSummary>)
    ensures Where(items, QuickFilterFn(All)) == Live(items)
  {
    if items != [] {
      AllIsLive(items[1..]);
    }
  }

  lemma SelectShows(v: Vault, index: Index, leq: NameOrder, order: CipherOrder, k: nat, node: Tree)
    requires VaultOk(v) && k <= |v.orgs| && !SomeClash(InsertionsOf(v, k)) && Within(node, TreeNo(v, index, leq, k))
    ensures |ApplyVaultFilters(v.ciphers, Selecting(node, Trees(v, index, leq), order))|
         == |FilterByTreeNode(Live(v.ciphers), node)|
  {
    var ts := Trees(v, index, leq);
    TreeAt(v, index, leq, k);
    var key := node.info.key;
    WithinKey(node, ts[k], []);
    WithinKey(node, ts[k], [] + [ts[k].info.name]);
    TreeKeys(ts[k], RootOf(v, index, k), WhichOf(k), [], key);
    TreeKeysExactly(v, index, leq, k);
    forall j: nat | j < k ensures key !in FactsOf(ts, j, [], KeyFact) {
      if key in FactsOf(ts, j, [], KeyFact) {
        TreesApart(v, index, leq, j, k, key);
      }
    }
    FindOnly(ts, k, node, []);
    SelectedShows(v.ciphers, ts, order, node);
  }

  lemma BelowRootKind(v: Vault, index: Index, leq: NameOrder, k: nat, node: Tree)
    requires VaultOk(v) && k <= |v.orgs| && Within(node, TreeNo(v, index, leq, k))
    ensures k == 0 ==> node.info.kind == Folder
    ensures k > 0 ==> node.info == RootOf(v, index, k) || node.info.kind == Collection
  {
    TreeAt(v, index, leq, k);
    var p := WithinGather(node, TreeNo(v, index, leq, k), [], InfoFact);
    assert (p, node.info) in Gather(node, p, InfoFact);
  }

  lemma BuiltCounted(
    t0: Tree, node: Tree, which: Which, tally: map<string, nat>, leq: NameOrder, live: seq<CipherSummary>)
    requires TalliesBy(tally, live, which) && Within(node, SortTree(WithCounts(t0, which, tally), leq))
    ensures Counted(node, which, live)
  {
    CountsCounted(t0, which, tally, live);
    SortCounted(WithCounts(t0, which, tally), leq, which, live);
    WithinCounted(node, SortTree(WithCounts(t0, which, tally), leq), which, live);
  }

  /** Without a clash of names, every folder node's cached count is the number of items selecting it shows. */
  lemma FolderCountIsShown(v: Vault, index: Index, leq: NameOrder, order: CipherOrder, node: Tree)
    requires VaultOk(v) && !SomeFolderClash(v.folders)
    requires IndexOf(index, v.ciphers) && Within(node, TreeNo(v, index, leq, 0))
    ensures |ApplyVaultFilters(v.ciphers, Selecting(node, Trees(v, index, leq), order))| == node.itemCount
  {
    var t := TreeNo(v, index, leq, 0);
    var live := Live(v.ciphers);
    FolderClashes(v.folders);
    SelectShows(v, index, leq, order, 0, node);
    BelowRootKind(v, index, leq, 0, node);
    BuiltCounted(InsertAll(Node(FOLDERS_ROOT, [], 0), FolderInsertions(v.folders)), node, ByFolder, index.byFolder,
      leq, live);
    ShownCount(live, node, ByFolder);
    FolderTreeBuilt(v.folders, index.byFolder, leq);
    NodeIdsUnique(node, t, ByFolder);
    FolderHitsOnce(live, Ids(node, ByFolder));
  }

  lemma {:induction false} IdsAtAnyPath(t: Tree, which: Which, p: Path, q: Path)
    ensures Gather(t, p, IdFact(which)) == Gather(t, q, IdFact(which))
    decreases t, 1
  {
    IdsAtAnyPathAll(t.children, which, p, q);
  }

  lemma {:induction false} IdsAtAnyPathAll(cs: seq<Tree>, which: Which, p: Path, q: Path)
    ensures GatherAll(cs, p, IdFact(which)) == GatherAll(cs, q, IdFact(which))
    decreases cs, 0
  {
    if cs != [] {
      IdsAtAnyPath(cs[0], which, p + [cs[0].info.name], q + [cs[0].info.name]);
      IdsAtAnyPathAll(cs[1..], which, p, q);
    }
  }

  lemma NodeIdsUnique(node: Tree, t: Tree, which: Which)
    requires Within(node, t) && Unique(Ids(t, which))
    ensures Unique(Ids(node, which))
  {
    var p := WithinGather(node, t, [], IdFact(which));
    IdsAtAnyPath(node, which, p, []);
    SubUnique(Ids(node, which), Ids(t, which));
  }

  /**
   * A collection node's count is never below what selecting it shows, and equal exactly when each live item has at
   * most one collection in the subtree.
   */
  lemma CollectionCountIsShown(v: Vault, index: Index, leq: NameOrder, order: CipherOrder, k: nat, node: Tree)
    requires VaultOk(v) && IndexOf(index, v.ciphers) && 0 < k <= |v.orgs| && !SomeClash(InsertionsOf(v, k))
    requires Within(node, TreeNo(v, index, leq, k)) && node.info.kind == Collection
    ensures |ApplyVaultFilters(v.ciphers, Selecting(node, Trees(v, index, leq), order))| <= node.itemCount
    ensures |ApplyVaultFilters(v.ciphers, Selecting(node, Trees(v, index, leq), order))| == node.itemCount
       <==> AtMostOnce(Live(v.ciphers), ByCollection, Ids(node, ByCollection))
  {
    var org, live := v.orgs[k - 1], Live(v.ciphers);
    SelectShows(v, index, leq, order, k, node);
    var t0 := InsertAll(OrgRoot(org, index.byOrg), CollectionInsertions(v.collections, org.id));
    BuiltCounted(t0, node, ByCollection, index.byCollection, leq, live);
    ShownCount(live, node, ByCollection);
  }

  lemma {:induction false} HitsAt(tags: seq<string>, ids: multiset<string>, a: nat)
    requires a < |tags| && tags[a] in ids
    ensures Hits(tags, ids) >= 1
  {
    if a > 0 {
      HitsAt(tags[1..], ids, a - 1);
    }
  }

  lemma {:induction false} HitsTwice(tags: seq<string>, ids: multiset<string>, a: nat, b: nat)
    requires a < b < |tags| && tags[a] in ids && tags[b] in ids
    ensures Hits(tags, ids) >= 2
  {
    if a > 0 {
      HitsTwice(tags[1..], ids, a - 1, b - 1);
    } else {
      HitsAt(tags[1..], ids, b - 1);
    }
  }

  /** One item in a collection and in another one below it: the node says more than the list shows. */
  lemma CountedTwice(
    v: Vault, index: Index, leq: NameOrder, order: CipherOrder, k: nat, node: Tree, i: nat, a: nat, b: nat)
    requires VaultOk(v) && IndexOf(index, v.ciphers) && 0 < k <= |v.orgs| && !SomeClash(InsertionsOf(v, k))
    requires Within(node, TreeNo(v, index, leq, k)) && node.info.kind == Collection && i < |Live(v.ciphers)|
    requires var tags, ids := Live(v.ciphers)[i].collectionIds, Ids(node, ByCollection);
      a < b < |tags| && tags[a] in ids && tags[b] in ids
    ensures |ApplyVaultFilters(v.ciphers, Selecting(node, Trees(v, index, leq), order))| < node.itemCount
  {
    var tags := Live(v.ciphers)[i].collectionIds;
    HitsTwice(tags, Ids(node, ByCollection), a, b);
    assert Tags(Live(v.ciphers)[i], ByCollection) == tags;
    CollectionCountIsShown(v, index, leq, order, k, node);
  }

  /** An organization root's count is the number of items selecting it shows. */
  lemma OrgCountIsShown(v: Vault, index: Index, leq: NameOrder, order: CipherOrder, k: nat)
    requires VaultOk(v) && IndexOf(index, v.ciphers) && 0 < k <= |v.orgs| && !SomeClash(InsertionsOf(v, k))
    ensures var root := TreeNo(v, index, leq, k);
            |ApplyVaultFilters(v.ciphers, Selecting(root, Trees(v, index, leq), order))| == root.itemCount
  {
    var root, org := TreeNo(v, index, leq, k), v.orgs[k - 1];
    SelectShows(v, index, leq, order, k, root);
    OrgTreeBuilt(org, v.collections, index.byOrg, index.byCollection, leq);
    OrgShown(Live(v.ciphers), root, org.id);
    assert Get(index.byOrg, org.id) == Carried(Live(v.ciphers), OrgTags, org.id);
  }

  lemma OrgShownOne(c: CipherSummary, root: Tree, org: string)
    requires root.info.kind == Organization && root.info.organizationId == Some(org) && org != ""
    ensures Occurrences(OrgTags(c), org) == if Shown(c, root) then 1 else 0
  {
    assert OrgTags(c) != [] ==> OrgTags(c)[1..] == [];
  }

  lemma {:induction false} OrgShown(items: seq<CipherSummary>, root: Tree, org: string)
    requires root.info.kind == Organization && root.info.organizationId == Some(org) && org != ""
    ensures |FilterByTreeNode(items, root)| == Carried(items, OrgTags, org)
  {
    if items != [] {
      OrgShownOne(items[0], root, org);
      OrgShown(items[1..], root, org);
    }
  }
}
