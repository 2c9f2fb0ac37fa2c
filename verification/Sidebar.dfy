/** The cached counts of the built trees against what selecting each node shows. */
module Sidebar {
  import opened Optional
  import opened Text
  import opened Tree
  import opened TreeShape
  import opened Filter

  // --------------------------------------------- counting items against ids

  /** How many of one item's tags name nodes, with multiplicity on both sides. */
  ghost function Hits(tags: seq<string>, ids: multiset<string>): nat {
    if tags == [] then 0 else ids[tags[0]] + Hits(tags[1..], ids)
  }

  ghost function HitsAll(items: seq<CipherSummary>, which: Which, ids: multiset<string>): nat {
    if items == [] then 0 else Hits(Tags(items[0], which), ids) + HitsAll(items[1..], which, ids)
  }

  lemma {:induction false} HitsPlus(tags: seq<string>, a: multiset<string>, b: multiset<string>)
    ensures Hits(tags, a + b) == Hits(tags, a) + Hits(tags, b)
  {
    if tags != [] {
      HitsPlus(tags[1..], a, b);
    }
  }

  lemma {:induction false} HitsAllPlus(
    items: seq<CipherSummary>, which: Which, a: multiset<string>, b: multiset<string>)
    ensures HitsAll(items, which, a + b) == HitsAll(items, which, a) + HitsAll(items, which, b)
  {
    if items != [] {
      HitsPlus(Tags(items[0], which), a, b);
      HitsAllPlus(items[1..], which, a, b);
    }
  }

  lemma {:induction false} HitsNone(tags: seq<string>)
    ensures Hits(tags, multiset{}) == 0
  {
    if tags != [] {
      HitsNone(tags[1..]);
    }
  }

  lemma {:induction false} HitsOne(tags: seq<string>, id: string)
    ensures Hits(tags, multiset{id}) == Occurrences(tags, id)
  {
    if tags != [] {
      HitsOne(tags[1..], id);
    }
  }

  lemma {:induction false} HitsAllOne(items: seq<CipherSummary>, which: Which, id: string)
    ensures HitsAll(items, which, multiset{}) == 0
    ensures HitsAll(items, which, multiset{id}) == Carried(items, TagsOf(which), id)
  {
    if items != [] {
      HitsNone(Tags(items[0], which));
      HitsOne(Tags(items[0], which), id);
      HitsAllOne(items[1..], which, id);
    }
  }

  ghost predicate TalliesBy(tally: map<string, nat>, live: seq<CipherSummary>, which: Which) {
    Tallies(tally, live, TagsOf(which))
  }

  /** The recursive sum over the nodes is a sum over the items. */
  lemma {:induction false} TotalIsHits(
    t: Tree, which: Which, tally: map<string, nat>, live: seq<CipherSummary>, path: Path)
    requires TalliesBy(tally, live, which)
    ensures Total(t, which, tally) == HitsAll(live, which, Gather(t, path, IdFact(which)))
    decreases t, 1
  {
    var own := IdFact(which)(path, t.info);
    HitsAllPlus(live, which, own, GatherAll(t.children, path, IdFact(which)));
    TotalAllIsHits(t.children, which, tally, live, path);
    var id := if Truthy(Id(t.info, which)) then Id(t.info, which).value else "";
    HitsAllOne(live, which, id);
    assert Get(tally, id) == Carried(live, TagsOf(which), id);
  }

  lemma {:induction false} TotalAllIsHits(
    cs: seq<Tree>, which: Which, tally: map<string, nat>, live: seq<CipherSummary>, path: Path)
    requires TalliesBy(tally, live, which)
    ensures TotalAll(cs, which, tally) == HitsAll(live, which, GatherAll(cs, path, IdFact(which)))
    decreases cs, 0
  {
    if cs == [] {
      HitsAllOne(live, which, "");
    } else {
      var here := path + [cs[0].info.name];
      TotalIsHits(cs[0], which, tally, live, here);
      TotalAllIsHits(cs[1..], which, tally, live, path);
      HitsAllPlus(live, which, Gather(cs[0], here, IdFact(which)), GatherAll(cs[1..], path, IdFact(which)));
    }
  }

  lemma {:induction false} CollectIsGather(t: Tree, which: Which, path: Path, id: string)
    ensures id in CollectIds(t, which) <==> id in Gather(t, path, IdFact(which))
    decreases t, 1
  {
    CollectAllIsGather(t.children, which, path, id);
  }

  lemma {:induction false} CollectAllIsGather(cs: seq<Tree>, which: Which, path: Path, id: string)
    ensures id in CollectIdsAll(cs, which) <==> id in GatherAll(cs, path, IdFact(which))
    decreases cs, 0
  {
    if cs != [] {
      CollectIsGather(cs[0], which, path + [cs[0].info.name], id);
      CollectAllIsGather(cs[1..], which, path, id);
    }
  }

  lemma {:induction false} HitsPositive(tags: seq<string>, ids: multiset<string>)
    ensures Hits(tags, ids) > 0 <==> exists i :: 0 <= i < |tags| && tags[i] in ids
  {
    if tags != [] {
      HitsPositive(tags[1..], ids);
      if tags[0] in ids {
      } else if Hits(tags[1..], ids) > 0 {
        var i :| 0 <= i < |tags[1..]| && tags[1..][i] in ids;
        assert tags[i + 1] in ids;
      } else {
        forall i | 0 <= i < |tags| ensures tags[i] !in ids {
          if i > 0 { assert tags[i] == tags[1..][i - 1]; }
        }
      }
    }
  }

  predicate KindOf(node: Tree, which: Which) {
    node.info.kind == (if which.ByFolder? then Folder else Collection)
  }

  lemma ShownIsHit(c: CipherSummary, node: Tree, which: Which)
    requires KindOf(node, which)
    ensures Shown(c, node) <==> Hits(Tags(c, which), Ids(node, which)) > 0
  {
    var tags, ids := Tags(c, which), Ids(node, which);
    HitsPositive(tags, ids);
    forall id ensures id in CollectIds(node, which) <==> id in ids { CollectIsGather(node, which, [], id); }
    if which.ByFolder? {
      CollectedTruthy(node, which);
      if Shown(c, node) {
        assert tags[0] in ids;
      }
    }
  }

  lemma {:induction false} CollectedTruthy(t: Tree, which: Which)
    ensures "" !in CollectIds(t, which)
    decreases t, 1
  {
    CollectedTruthyAll(t.children, which);
  }

  lemma {:induction false} CollectedTruthyAll(cs: seq<Tree>, which: Which)
    ensures "" !in CollectIdsAll(cs, which)
    decreases cs, 0
  {
    if cs != [] {
      CollectedTruthy(cs[0], which);
      CollectedTruthyAll(cs[1..], which);
    }
  }

  /** Every item of the list has at most one tag in the subtree. */
  ghost predicate AtMostOnce(items: seq<CipherSummary>, which: Which, ids: multiset<string>) {
    forall i :: 0 <= i < |items| ==> Hits(Tags(items[i], which), ids) <= 1
  }

  lemma AtMostOnceCons(items: seq<CipherSummary>, which: Which, ids: multiset<string>)
    requires items != []
    ensures AtMostOnce(items, which, ids)
      <==> Hits(Tags(items[0], which), ids) <= 1 && AtMostOnce(items[1..], which, ids)
  {
    assert items == [items[0]] + items[1..];
  }

  /** The count is never below the number of items shown, and equal exactly when no item is hit twice. */
  lemma {:induction false} ShownCount(items: seq<CipherSummary>, node: Tree, which: Which)
    requires KindOf(node, which)
    ensures |FilterByTreeNode(items, node)| <= HitsAll(items, which, Ids(node, which))
    ensures |FilterByTreeNode(items, node)| == HitsAll(items, which, Ids(node, which))
       <==> AtMostOnce(items, which, Ids(node, which))
  {
    if items != [] {
      ShownIsHit(items[0], node, which);
      ShownCount(items[1..], node, which);
      AtMostOnceCons(items, which, Ids(node, which));
    }
  }

  lemma FolderHitsOnce(items: seq<CipherSummary>, ids: multiset<string>)
    requires Unique(ids)
    ensures AtMostOnce(items, ByFolder, ids)
  {
    forall i | 0 <= i < |items| ensures Hits(Tags(items[i], ByFolder), ids) <= 1 {
      var tags := Tags(items[i], ByFolder);
      if tags != [] {
        assert tags[1..] == [] && ids[tags[0]] <= 1;
      }
    }
  }

  // ------------------------------------------------- nodes of the built trees

  /** `n` is `t` or one of its descendants. */
  ghost predicate Within(n: Tree, t: Tree)
    decreases t
  {
    n == t || exists i :: 0 <= i < |t.children| && Within(n, t.children[i])
  }

  /** Every cached count below and at `t` counts the live items' hits on the ids at or below that node. */
  ghost predicate Counted(t: Tree, which: Which, live: seq<CipherSummary>)
    decreases t
  {
    && ((which.ByCollection? && t.info.kind.Organization?) || t.itemCount == HitsAll(live, which, Ids(t, which)))
    && forall i :: 0 <= i < |t.children| ==> Counted(t.children[i], which, live)
  }

  lemma IdsAnyPath(t: Tree, which: Which, tally: map<string, nat>, live: seq<CipherSummary>)
    requires TalliesBy(tally, live, which)
    ensures Total(t, which, tally) == HitsAll(live, which, Ids(WithCounts(t, which, tally), which))
  {
    TotalIsHits(t, which, tally, live, []);
    GatherWithCounts(t, which, tally, [], IdFact(which));
  }

  lemma {:induction false} CountsCounted(t: Tree, which: Which, tally: map<string, nat>, live: seq<CipherSummary>)
    requires TalliesBy(tally, live, which)
    ensures Counted(WithCounts(t, which, tally), which, live)
    decreases t, 1
  {
    IdsAnyPath(t, which, tally, live);
    CountsCountedAll(t.children, which, tally, live);
  }

  lemma {:induction false} CountsCountedAll(
    cs: seq<Tree>, which: Which, tally: map<string, nat>, live: seq<CipherSummary>)
    requires TalliesBy(tally, live, which)
    ensures forall i :: 0 <= i < |WithCountsAll(cs, which, tally)| ==>
      Counted(WithCountsAll(cs, which, tally)[i], which, live)
    decreases cs, 0
  {
    if cs != [] {
      CountsCounted(cs[0], which, tally, live);
      CountsCountedAll(cs[1..], which, tally, live);
    }
  }

  lemma {:induction false} SortedMembers(cs: seq<Tree>, leq: NameOrder)
    ensures forall x :: x in SortByName(cs, leq) <==> x in cs
  {
    if cs != [] {
      SortedMembers(cs[1..], leq);
      InsertedMembers(cs[0], SortByName(cs[1..], leq), leq);
    }
  }

  lemma {:induction false} InsertedMembers(c: Tree, cs: seq<Tree>, leq: NameOrder)
    ensures forall x :: x in InsertSorted(c, cs, leq) <==> x == c || x in cs
  {
    if cs != [] && !leq(c.info.name, cs[0].info.name) {
      InsertedMembers(c, cs[1..], leq);
    }
  }

  /** Sorting keeps every cached count right. */
  lemma {:induction false} SortCounted(t: Tree, leq: NameOrder, which: Which, live: seq<CipherSummary>)
    requires Counted(t, which, live)
    ensures Counted(SortTree(t, leq), which, live)
    decreases t, 1
  {
    var t' := SortTree(t, leq);
    GatherSortTree(t, leq, [], IdFact(which));
    SortCountedAll(t.children, leq, which, live);
    SortedMembers(SortAll(t.children, leq), leq);
    forall i | 0 <= i < |t'.children| ensures Counted(t'.children[i], which, live) {
      assert t'.children[i] in SortAll(t.children, leq);
    }
  }

  lemma {:induction false} SortCountedAll(cs: seq<Tree>, leq: NameOrder, which: Which, live: seq<CipherSummary>)
    requires forall i :: 0 <= i < |cs| ==> Counted(cs[i], which, live)
    ensures forall c :: c in SortAll(cs, leq) ==> Counted(c, which, live)
    decreases cs, 0
  {
    if cs != [] {
      SortCounted(cs[0], leq, which, live);
      SortCountedAll(cs[1..], leq, which, live);
    }
  }

  lemma {:induction false} WithinCounted(n: Tree, t: Tree, which: Which, live: seq<CipherSummary>)
    requires Within(n, t) && Counted(t, which, live)
    ensures Counted(n, which, live)
    decreases t
  {
    if n != t {
      var i :| 0 <= i < |t.children| && Within(n, t.children[i]);
      WithinCounted(n, t.children[i], which, live);
    }
  }

  /** A descendant's facts are among the tree's. */
  lemma {:induction false} WithinGather<X>(n: Tree, t: Tree, path: Path, f: Fact<X>) returns (p: Path)
    requires Within(n, t)
    ensures Gather(n, p, f) <= Gather(t, path, f)
    decreases t
  {
    if n == t {
      p := path;
    } else {
      var i :| 0 <= i < |t.children| && Within(n, t.children[i]);
      p := WithinGather(n, t.children[i], path + [t.children[i].info.name], f);
      GatherMember(t.children, i, path, f);
    }
  }

  // ---------------------------------------------------------- finding by key

  lemma {:induction false} FindInAbsent(t: Tree, key: string, path: Path)
    requires key !in Gather(t, path, KeyFact)
    ensures FindIn(t, key) == None
    decreases t, 1
  {
    assert t.info.key in Gather(t, path, KeyFact);
    FindAbsent(t.children, key, path);
  }

  lemma {:induction false} FindAbsent(roots: seq<Tree>, key: string, path: Path)
    requires key !in GatherAll(roots, path, KeyFact)
    ensures FindNode(roots, key) == None
    decreases roots, 0
  {
    if roots != [] {
      FindInAbsent(roots[0], key, path + [roots[0].info.name]);
      FindAbsent(roots[1..], key, path);
    }
  }

  lemma WithinKey(n: Tree, t: Tree, path: Path)
    requires Within(n, t)
    ensures n.info.key in Gather(t, path, KeyFact)
  {
    var p := WithinGather(n, t, path, KeyFact);
    assert n.info.key in Gather(n, p, KeyFact);
  }

  /** Where keys are unique, looking up a node's key finds that very node. */
  lemma {:induction false} FindWithin(roots: seq<Tree>, i: nat, n: Tree, path: Path)
    requires i < |roots| && Within(n, roots[i]) && Unique(GatherAll(roots, path, KeyFact))
    ensures FindNode(roots, n.info.key) == Some(n)
    decreases roots, 0
  {
    var here := path + [roots[0].info.name];
    var first, rest := Gather(roots[0], here, KeyFact), GatherAll(roots[1..], path, KeyFact);
    SubUnique(first, first + rest);
    SubUnique(rest, first + rest);
    if i == 0 {
      FindInWithin(roots[0], n, here);
    } else {
      assert roots[1..][i - 1] == roots[i];
      WithinKey(n, roots[i], path + [roots[i].info.name]);
      GatherMember(roots[1..], i - 1, path, KeyFact);
      assert n.info.key in rest && (first + rest)[n.info.key] <= 1;
      FindInAbsent(roots[0], n.info.key, here);
      FindWithin(roots[1..], i - 1, n, path);
    }
  }

  /** It is enough that no earlier tree has the key, and the node's own tree has it once. */
  lemma {:induction false} FindOnly(roots: seq<Tree>, i: nat, n: Tree, path: Path)
    requires i < |roots| && Within(n, roots[i]) && Unique(FactsOf(roots, i, path, KeyFact))
    requires forall j: nat :: j < i ==> n.info.key !in FactsOf(roots, j, path, KeyFact)
    ensures FindNode(roots, n.info.key) == Some(n)
    decreases i
  {
    var here := path + [roots[0].info.name];
    if i == 0 {
      FindInWithin(roots[0], n, here);
    } else {
      var rest := roots[1..];
      assert n.info.key !in FactsOf(roots, 0, path, KeyFact);
      FindInAbsent(roots[0], n.info.key, here);
      forall j: nat | j < i - 1 ensures n.info.key !in FactsOf(rest, j, path, KeyFact) {
        assert n.info.key !in FactsOf(roots, j + 1, path, KeyFact) && rest[j] == roots[j + 1];
      }
      FindOnly(rest, i - 1, n, path);
    }
  }

  lemma {:induction false} FindInWithin(t: Tree, n: Tree, path: Path)
    requires Within(n, t) && Unique(Gather(t, path, KeyFact))
    ensures FindIn(t, n.info.key) == Some(n)
    decreases t, 1
  {
    if n != t {
      var i :| 0 <= i < |t.children| && Within(n, t.children[i]);
      WithinKey(n, t.children[i], path + [t.children[i].info.name]);
      GatherMember(t.children, i, path, KeyFact);
      assert n.info.key in GatherAll(t.children, path, KeyFact);
      assert Gather(t, path, KeyFact)[n.info.key] <= 1;
      SubUnique(GatherAll(t.children, path, KeyFact), Gather(t, path, KeyFact));
      assert n.info.key != t.info.key;
      FindWithin(t.children, i, n, path);
    }
  }
}
