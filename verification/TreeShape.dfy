/** What every sequence of insertions keeps, and what sorting and counting leave alone. */
module TreeShape {
  import opened Optional
  import opened Text
  import opened Tree

  // --------------------------------------- a multiset of facts about the nodes

  type Path = seq<string>

  /** What one node contributes: its own fields, under the names of the nodes above and including it. */
  type Fact<!X> = (Path, Info) -> multiset<X>

  ghost function Gather<X>(t: Tree, path: Path, f: Fact<X>): multiset<X>
    decreases t, 1
  {
    f(path, t.info) + GatherAll(t.children, path, f)
  }

  ghost function GatherAll<X>(cs: seq<Tree>, path: Path, f: Fact<X>): multiset<X>
    decreases cs, 0
  {
    if cs == [] then multiset{}
    else Gather(cs[0], path + [cs[0].info.name], f) + GatherAll(cs[1..], path, f)
  }

  lemma {:induction false} GatherConcat<X>(a: seq<Tree>, b: seq<Tree>, path: Path, f: Fact<X>)
    ensures GatherAll(a + b, path, f) == GatherAll(a, path, f) + GatherAll(b, path, f)
  {
    if a == [] {
      assert a + b == b;
    } else {
      GatherConcat(a[1..], b, path, f);
      assert (a + b)[1..] == a[1..] + b;
    }
  }

  lemma GatherSplit<X>(cs: seq<Tree>, k: nat, path: Path, f: Fact<X>)
    requires k < |cs|
    ensures GatherAll(cs, path, f)
         == GatherAll(cs[..k], path, f) + Gather(cs[k], path + [cs[k].info.name], f) + GatherAll(cs[k + 1..], path, f)
  {
    assert cs == cs[..k] + cs[k..] && cs[k..][1..] == cs[k + 1..];
    GatherConcat(cs[..k], cs[k..], path, f);
  }

  lemma GatherUpdate<X>(cs: seq<Tree>, k: nat, c: Tree, path: Path, f: Fact<X>)
    requires k < |cs| && c.info.name == cs[k].info.name
    ensures GatherAll(cs[k := c], path, f) + Gather(cs[k], path + [c.info.name], f)
         == GatherAll(cs, path, f) + Gather(c, path + [c.info.name], f)
  {
    GatherSplit(cs, k, path, f);
    GatherSplit(cs[k := c], k, path, f);
    assert cs[k := c][..k] == cs[..k] && cs[k := c][k + 1..] == cs[k + 1..];
  }

  lemma GatherAppend<X>(cs: seq<Tree>, c: Tree, path: Path, f: Fact<X>)
    ensures GatherAll(cs + [c], path, f) == GatherAll(cs, path, f) + Gather(c, path + [c.info.name], f)
  {
    GatherConcat(cs, [c], path, f);
    assert [c][1..] == [];
  }

  /** Sorting moves nodes among their siblings only. */
  lemma {:induction false} GatherSorted<X>(cs: seq<Tree>, leq: NameOrder, path: Path, f: Fact<X>)
    ensures GatherAll(SortByName(cs, leq), path, f) == GatherAll(cs, path, f)
  {
    if cs != [] {
      GatherSorted(cs[1..], leq, path, f);
      GatherInsertSorted(cs[0], SortByName(cs[1..], leq), leq, path, f);
    }
  }

  lemma {:induction false} GatherInsertSorted<X>(x: Tree, cs: seq<Tree>, leq: NameOrder, path: Path, f: Fact<X>)
    ensures GatherAll(InsertSorted(x, cs, leq), path, f) == Gather(x, path + [x.info.name], f) + GatherAll(cs, path, f)
  {
    if cs == [] || leq(x.info.name, cs[0].info.name) {
      assert ([x] + cs)[1..] == cs;
    } else {
      GatherInsertSorted(x, cs[1..], leq, path, f);
      assert InsertSorted(x, cs, leq)[1..] == InsertSorted(x, cs[1..], leq);
    }
  }

  lemma {:induction false} GatherSortTree<X>(t: Tree, leq: NameOrder, path: Path, f: Fact<X>)
    ensures Gather(SortTree(t, leq), path, f) == Gather(t, path, f)
    decreases t, 1
  {
    GatherSortAll(t.children, leq, path, f);
    GatherSorted(SortAll(t.children, leq), leq, path, f);
  }

  lemma {:induction false} GatherSortAll<X>(cs: seq<Tree>, leq: NameOrder, path: Path, f: Fact<X>)
    ensures GatherAll(SortAll(cs, leq), path, f) == GatherAll(cs, path, f)
    decreases cs, 0
  {
    if cs != [] {
      GatherSortTree(cs[0], leq, path + [cs[0].info.name], f);
      GatherSortAll(cs[1..], leq, path, f);
      assert SortAll(cs, leq)[1..] == SortAll(cs[1..], leq);
    }
  }

  lemma {:induction false} GatherWithCounts<X>(t: Tree, which: Which, tally: map<string, nat>, path: Path, f: Fact<X>)
    ensures Gather(WithCounts(t, which, tally), path, f) == Gather(t, path, f)
    decreases t, 1
  {
    GatherWithCountsAll(t.children, which, tally, path, f);
  }

  lemma {:induction false} GatherWithCountsAll<X>(
    cs: seq<Tree>, which: Which, tally: map<string, nat>, path: Path, f: Fact<X>)
    ensures GatherAll(WithCountsAll(cs, which, tally), path, f) == GatherAll(cs, path, f)
    decreases cs, 0
  {
    if cs != [] {
      GatherWithCounts(cs[0], which, tally, path + [cs[0].info.name], f);
      GatherWithCountsAll(cs[1..], which, tally, path, f);
      assert WithCountsAll(cs, which, tally)[1..] == WithCountsAll(cs[1..], which, tally);
    }
  }

  // ---------------------------------------------------------- the three facts

  ghost const KeyFact: Fact<string> := (p: Path, i: Info) => multiset{i.key}

  ghost function IdFact(which: Which): Fact<string> {
    (p: Path, i: Info) => if Truthy(Id(i, which)) then multiset{Id(i, which).value} else multiset{}
  }

  ghost function PlaceFact(which: Which): Fact<(Path, string)> {
    (p: Path, i: Info) => if Truthy(Id(i, which)) then multiset{(p, Id(i, which).value)} else multiset{}
  }

  ghost function Keys(t: Tree): multiset<string> { Gather(t, [], KeyFact) }

  ghost function Ids(t: Tree, which: Which): multiset<string> { Gather(t, [], IdFact(which)) }

  /** Every id in the tree with the names on its path, once for each node that carries it. */
  ghost function Places(t: Tree, which: Which): multiset<(Path, string)> { Gather(t, [], PlaceFact(which)) }

  ghost predicate Unique<X(!new)>(m: multiset<X>) {
    forall x :: m[x] <= 1
  }

  lemma SubUnique(a: multiset<string>, b: multiset<string>)
    requires a <= b && Unique(b)
    ensures Unique(a)
  {
    forall x ensures a[x] <= 1 {
      assert a[x] <= b[x];
    }
  }

  /** The two leaf shapes the builders pass to `insertIntoTree`. */
  predicate LeafOf(leaf: Leaf, which: Which, id: string) {
    && id != ""
    && leaf.folderId == (if which.ByFolder? then Some(id) else None)
    && leaf.collectionId == (if which.ByFolder? then None else Some(id))
    && leaf.kind == (if which.ByFolder? then Folder else Collection)
  }

  // ------------------------------------------- what one insertion adds and keeps

  /** `f` reports exactly the nodes that carry an id, as `g` of their path and id. */
  ghost predicate IsIdFact<X(!new)>(f: Fact<X>, g: (Path, string) -> X, which: Which) {
    forall p, i :: f(p, i) == if Truthy(Id(i, which)) then multiset{g(p, Id(i, which).value)} else multiset{}
  }

  lemma IdFactAt<X(!new)>(f: Fact<X>, g: (Path, string) -> X, which: Which, p: Path, i: Info)
    requires IsIdFact(f, g, which)
    ensures f(p, i) == if Truthy(Id(i, which)) then multiset{g(p, Id(i, which).value)} else multiset{}
  {
  }

  lemma ReplaceChild<X(!new)>(t: Tree, k: nat, c: Tree, path: Path, f: Fact<X>, added: multiset<X>)
    requires k < |t.children| && c.info.name == t.children[k].info.name
    requires var here := path + [c.info.name]; Gather(c, here, f) == Gather(t.children[k], here, f) + added
    ensures Gather(t.(children := t.children[k := c]), path, f) == Gather(t, path, f) + added
  {
    GatherUpdate(t.children, k, c, path, f);
    var here := path + [c.info.name];
    forall x ensures GatherAll(t.children[k := c], path, f)[x] == (GatherAll(t.children, path, f) + added)[x] {
      assert (GatherAll(t.children[k := c], path, f) + Gather(t.children[k], here, f))[x]
          == (GatherAll(t.children, path, f) + Gather(c, here, f))[x];
    }
    assert GatherAll(t.children[k := c], path, f) == GatherAll(t.children, path, f) + added;
  }

  lemma AddChild<X>(t: Tree, c: Tree, path: Path, f: Fact<X>)
    ensures Gather(t.(children := t.children + [c]), path, f) == Gather(t, path, f) + Gather(c, path + [c.info.name], f)
  {
    GatherAppend(t.children, c, path, f);
  }

  lemma LastSegmentGathers<X(!new)>(
    t: Tree, seg: string, leaf: Leaf, acc: string, which: Which, id: string, path: Path, f: Fact<X>,
    g: (Path, string) -> X)
    requires LeafOf(leaf, which, id) && IsIdFact(f, g, which)
    ensures Gather(InsertIntoTree(t, [seg], leaf, acc), path, f) == Gather(t, path, f) + multiset{g(path + [seg], id)}
  {
    hide IsIdFact;
    var cs, here := t.children, path + [seg];
    var k := First(cs, seg, true);
    if k < |cs| {
      var c := cs[k].(info := Promote(cs[k].info, leaf));
      IdFactAt(f, g, which, here, cs[k].info);
      IdFactAt(f, g, which, here, c.info);
      ReplaceChild(t, k, c, path, f, multiset{g(here, id)});
    } else {
      var c := Node(LeafInfo(acc + "/" + seg, seg, leaf, First(cs, seg, false) < |cs|), [], 0);
      IdFactAt(f, g, which, here, c.info);
      LoneNode(c, here, f);
      hide Gather, GatherAll;
      AddChild(t, c, path, f);
    }
  }

  lemma LoneNode<X>(t: Tree, path: Path, f: Fact<X>)
    requires t.children == []
    ensures Gather(t, path, f) == f(path, t.info)
  {
  }

  /**
   * An insertion adds exactly one fact: the new id, at the inserted path. It never moves, drops or renames an id
   * already placed, whether it extends a branch, promotes a synthetic parent or adds a duplicate.
   */
  lemma {:induction false} InsertGathers<X(!new)>(
    t: Tree, segments: Path, leaf: Leaf, acc: string, which: Which, id: string, path: Path, f: Fact<X>,
    g: (Path, string) -> X)
    requires LeafOf(leaf, which, id) && |segments| > 0 && IsIdFact(f, g, which)
    ensures Gather(InsertIntoTree(t, segments, leaf, acc), path, f)
      == Gather(t, path, f) + multiset{g(path + segments, id)}
    decreases |segments|
  {
    var seg, rest, cs := segments[0], segments[1..], t.children;
    var key, here := acc + "/" + seg, path + [seg];
    if rest == [] {
      assert segments == [seg];
      LastSegmentGathers(t, seg, leaf, acc, which, id, path, f, g);
    } else {
      var k := First(cs, seg, false);
      var c := if k < |cs| then cs[k] else Node(SyntheticInfo(key, seg, leaf), [], 0);
      var c' := InsertIntoTree(c, rest, leaf, key);
      InsertGathers(c, rest, leaf, key, which, id, here, f, g);
      InsertKeepsInfo(c, rest, leaf, key);
      assert here + rest == path + segments;
      if k < |cs| {
        ReplaceChild(t, k, c', path, f, multiset{g(path + segments, id)});
      } else {
        IdFactAt(f, g, which, here, c.info);
        AddChild(t, c', path, f);
      }
    }
  }

  lemma InsertKeepsInfo(t: Tree, segments: Path, leaf: Leaf, acc: string)
    ensures InsertIntoTree(t, segments, leaf, acc).info == t.info
  {
  }

  lemma InsertPlaces(t: Tree, segments: Path, leaf: Leaf, acc: string, which: Which, id: string)
    requires LeafOf(leaf, which, id) && |segments| > 0
    ensures Places(InsertIntoTree(t, segments, leaf, acc), which) == Places(t, which) + multiset{(segments, id)}
    ensures Ids(InsertIntoTree(t, segments, leaf, acc), which) == Ids(t, which) + multiset{id}
  {
    InsertGathers(t, segments, leaf, acc, which, id, [], PlaceFact(which), (p, s) => (p, s));
    InsertGathers(t, segments, leaf, acc, which, id, [], IdFact(which), (p, s) => s);
    assert [] + segments == segments;
  }

  // ---------------------------------------------------- the shape below a parent

  /** What `splitPath` gives: not empty, no slash. It may well contain a `#`. */
  predicate Segment(name: string) {
    name != "" && '/' !in name
  }

  predicate AllSegments(path: Path) {
    forall i :: 0 <= i < |path| ==> Segment(path[i])
  }

  /** Neither of the two characters the keys are put together with. */
  predicate Plain(name: string) {
    name != "" && '/' !in name && '#' !in name
  }

  /**
   * Child `i` of a node whose own path spells `nat`: the first child of each name has the natural key and is the only
   * one with descendants; later ones of that name are real, keyed by their id; no synthetic child shares its name.
   */
  predicate GoodChild(cs: seq<Tree>, i: nat, nat': string, which: Which)
    requires i < |cs|
  {
    var c := cs[i];
    var natural := nat' + "/" + c.info.name;
    && Segment(c.info.name)
    && c.info.kind == (if which.ByFolder? then Folder else Collection)
    && (if which.ByFolder? then c.info.collectionId.None? else c.info.folderId.None?)
    && (Id(c.info, which).Some? ==> Id(c.info, which).value != "")
    && (if First(cs, c.info.name, false) == i then c.info.key == natural
        else Id(c.info, which).Some? && c.info.key == natural + "#" + Id(c.info, which).value && c.children == [])
    && (Id(c.info, which).None? ==> forall j :: 0 <= j < |cs| && j != i ==> cs[j].info.name != c.info.name)
  }

  predicate Good(t: Tree, nat': string, which: Which)
    decreases t
  {
    forall i :: 0 <= i < |t.children| ==>
      GoodChild(t.children, i, nat', which) && Good(t.children[i], nat' + "/" + t.children[i].info.name, which)
  }

  lemma {:induction false} FirstIs(cs: seq<Tree>, name: string, synthetic: bool, k: nat)
    requires k <= |cs| && (k < |cs| ==> Matches(cs[k], name, synthetic))
    requires forall i :: 0 <= i < k ==> !Matches(cs[i], name, synthetic)
    ensures First(cs, name, synthetic) == k
  {
  }

  /** Replacing a child by one of the same name that is at least as real keeps all the siblings' shape. */
  lemma UpdateGood(cs: seq<Tree>, k: nat, c: Tree, nat': string, which: Which)
    requires k < |cs| && forall i :: 0 <= i < |cs| ==> GoodChild(cs, i, nat', which)
    requires First(cs, c.info.name, false) == k
    requires c.info.name == cs[k].info.name && c.info.key == cs[k].info.key && c.info.kind == cs[k].info.kind
    requires if which.ByFolder? then c.info.collectionId.None? else c.info.folderId.None?
    requires Id(c.info, which).Some? ==> Id(c.info, which).value != ""
    requires Id(c.info, which).None? ==> Id(cs[k].info, which).None?
    ensures var cs' := cs[k := c]; forall i :: 0 <= i < |cs'| ==> GoodChild(cs', i, nat', which)
  {
    var cs' := cs[k := c];
    forall i | 0 <= i < |cs'| ensures GoodChild(cs', i, nat', which) {
      assert GoodChild(cs, i, nat', which) && GoodChild(cs, k, nat', which);
      var f := First(cs, cs[i].info.name, false);
      FirstIs(cs', cs[i].info.name, false, f);
    }
  }

  lemma AppendGood(cs: seq<Tree>, c: Tree, nat': string, which: Which)
    requires forall i :: 0 <= i < |cs| ==> GoodChild(cs, i, nat', which)
    requires Segment(c.info.name) && c.info.kind == (if which.ByFolder? then Folder else Collection)
    requires if which.ByFolder? then c.info.collectionId.None? else c.info.folderId.None?
    requires Id(c.info, which).Some? ==> Id(c.info, which).value != ""
    requires First(cs, c.info.name, true) == |cs|
    requires var natural := nat' + "/" + c.info.name;
             if First(cs, c.info.name, false) == |cs| then c.info.key == natural
             else Id(c.info, which).Some? && c.info.key == natural + "#" + Id(c.info, which).value && c.children == []
    ensures forall i :: 0 <= i <= |cs| ==> GoodChild(cs + [c], i, nat', which)
  {
    var cs' := cs + [c];
    forall i | 0 <= i <= |cs| ensures GoodChild(cs', i, nat', which) {
      var f := First(cs, cs'[i].info.name, false);
      FirstIs(cs', cs'[i].info.name, false, f);
      if i < |cs| {
        assert GoodChild(cs, i, nat', which);
        if cs[i].info.name == c.info.name {
          assert !Matches(cs[i], c.info.name, true);
        }
      }
    }
  }

  lemma LastSegmentGood(t: Tree, seg: string, leaf: Leaf, nat': string, which: Which, id: string)
    requires LeafOf(leaf, which, id) && Good(t, nat', which) && Segment(seg)
    ensures Good(InsertIntoTree(t, [seg], leaf, nat'), nat', which)
  {
    var cs := t.children;
    var k, first := First(cs, seg, true), First(cs, seg, false);
    if k < |cs| {
      assert GoodChild(cs, k, nat', which);
      SoleSynthetic(cs, k, seg, nat', which);
      UpdateGood(cs, k, cs[k].(info := Promote(cs[k].info, leaf)), nat', which);
    } else {
      AppendGood(cs, Node(LeafInfo(nat' + "/" + seg, seg, leaf, first < |cs|), [], 0), nat', which);
    }
  }

  /** Every insertion keeps the shape. */
  lemma {:induction false} InsertGood(t: Tree, segments: Path, leaf: Leaf, nat': string, which: Which, id: string)
    requires LeafOf(leaf, which, id) && Good(t, nat', which)
    requires AllSegments(segments)
    ensures Good(InsertIntoTree(t, segments, leaf, nat'), nat', which)
    decreases |segments|
  {
    if |segments| == 1 {
      assert segments == [segments[0]];
      LastSegmentGood(t, segments[0], leaf, nat', which, id);
    } else if |segments| > 1 {
      var seg, rest, cs := segments[0], segments[1..], t.children;
      var key, k := nat' + "/" + seg, First(cs, seg, false);
      var c := if k < |cs| then cs[k] else Node(SyntheticInfo(key, seg, leaf), [], 0);
      var c' := InsertIntoTree(c, rest, leaf, key);
      InsertGood(c, rest, leaf, key, which, id);
      InsertKeepsInfo(c, rest, leaf, key);
      if k < |cs| {
        assert GoodChild(cs, k, nat', which);
        UpdateGood(cs, k, c', nat', which);
      } else {
        SyntheticAbsent(cs, seg);
        AppendGood(cs, c', nat', which);
      }
    }
  }

  lemma SyntheticAbsent(cs: seq<Tree>, name: string)
    requires First(cs, name, false) == |cs|
    ensures First(cs, name, true) == |cs|
  {
  }

  /** A synthetic child is the first child of its name, so promotion keeps the natural key. */
  lemma SoleSynthetic(cs: seq<Tree>, k: nat, name: string, nat': string, which: Which)
    requires k < |cs| && GoodChild(cs, k, nat', which) && Matches(cs[k], name, true)
    ensures First(cs, name, false) == k
  {
    FirstIs(cs, name, false, k);
  }

  // ------------------------------------------------------ facts that are unique

  /** `key` is the natural key `k` or one that continues it with a path or an id. */
  predicate Under(key: string, k: string) {
    k <= key && (|key| > |k| ==> key[|k|] in "/#")
  }

  lemma {:induction false} GatherAllMember<X>(cs: seq<Tree>, path: Path, f: Fact<X>, x: X) returns (j: nat)
    requires x in GatherAll(cs, path, f)
    ensures j < |cs| && x in Gather(cs[j], path + [cs[j].info.name], f)
  {
    if x in Gather(cs[0], path + [cs[0].info.name], f) {
      j := 0;
    } else {
      var i := GatherAllMember(cs[1..], path, f, x);
      j := i + 1;
    }
  }

  function Head(s: string): string {
    if s == "" || s[0] in "/#" then "" else [s[0]] + Head(s[1..])
  }

  lemma {:induction false} HeadOf(name: string, rest: string)
    requires '/' !in name && '#' !in name && (rest == "" || rest[0] in "/#")
    ensures Head(name + rest) == name
  {
    if name == "" {
      assert name + rest == rest;
    } else {
      assert name[0] in name && (name + rest)[1..] == name[1..] + rest;
      HeadOf(name[1..], rest);
    }
  }

  /** The name can be read off any key at or below it. */
  lemma NameOfKey(base: string, name: string, key: string)
    requires Plain(name) && Under(key, base + name)
    ensures |base| <= |key| && Head(key[|base|..]) == name
  {
    var rest := key[|base| + |name|..];
    assert key == base + name + rest;
    assert key[|base|..] == name + rest;
    HeadOf(name, rest);
  }

  lemma {:induction false} GatherMember<X>(cs: seq<Tree>, j: nat, path: Path, f: Fact<X>)
    requires j < |cs|
    ensures Gather(cs[j], path + [cs[j].info.name], f) <= GatherAll(cs, path, f)
  {
    GatherSplit(cs, j, path, f);
  }

  ghost function FactsOf<X>(cs: seq<Tree>, i: nat, path: Path, f: Fact<X>): multiset<X>
    requires i < |cs|
  {
    Gather(cs[i], path + [cs[i].info.name], f)
  }

  ghost predicate EachUnique<X(!new)>(cs: seq<Tree>, path: Path, f: Fact<X>) {
    forall i: nat :: i < |cs| ==> Unique(FactsOf(cs, i, path, f))
  }

  ghost predicate NoneShared<X(!new)>(cs: seq<Tree>, path: Path, f: Fact<X>) {
    forall i: nat, j: nat, x | i < j < |cs| && x in FactsOf(cs, i, path, f) :: x !in FactsOf(cs, j, path, f)
  }

  lemma {:induction false} FactsOfFirst<X>(cs: seq<Tree>, k: nat, path: Path, f: Fact<X>)
    requires k < |cs|
    ensures GatherAll(cs[..k + 1], path, f) == GatherAll(cs[..k], path, f) + FactsOf(cs, k, path, f)
  {
    assert cs[..k + 1] == cs[..k] + [cs[k]];
    GatherAppend(cs[..k], cs[k], path, f);
  }

  lemma {:induction false} FactOfFirst<X>(cs: seq<Tree>, k: nat, path: Path, f: Fact<X>, x: X) returns (j: nat)
    requires k <= |cs| && x in GatherAll(cs[..k], path, f)
    ensures j < k && x in FactsOf(cs, j, path, f)
  {
    j := GatherAllMember(cs[..k], path, f, x);
    assert cs[..k][j] == cs[j];
  }

  /** Trees with unique facts and none in common have unique facts together. */
  lemma {:induction false} PairwiseUnique<X(!new)>(cs: seq<Tree>, n: nat, path: Path, f: Fact<X>)
    requires n <= |cs| && EachUnique(cs, path, f) && NoneShared(cs, path, f)
    ensures Unique(GatherAll(cs[..n], path, f))
  {
    if n > 0 {
      hide Gather, GatherAll, FactsOf;
      var k: nat := n - 1;
      PairwiseUnique(cs, k, path, f);
      FactsOfFirst(cs, k, path, f);
      forall x ensures GatherAll(cs[..n], path, f)[x] <= 1 {
        if x in GatherAll(cs[..k], path, f) {
          var j := FactOfFirst(cs, k, path, f, x);
        }
      }
    }
  }

  lemma GoodBelow(t: Tree, nat': string, which: Which, i: nat, path: Path)
    requires Good(t, nat', which) && Unique(GatherAll(t.children, path, IdFact(which))) && i < |t.children|
    ensures var c := t.children[i];
      && Good(c, nat' + "/" + c.info.name, which) && GoodChild(t.children, i, nat', which)
      && Unique(GatherAll(c.children, path + [c.info.name], IdFact(which)))
      && (c.info.key == nat' + "/" + c.info.name || c.children == [])
  {
    var c, here := t.children[i], path + [t.children[i].info.name];
    GatherMember(t.children, i, path, IdFact(which));
    assert GatherAll(c.children, here, IdFact(which)) <= Gather(c, here, IdFact(which));
  }

  lemma IdsApart(cs: seq<Tree>, j: nat, k: nat, nat': string, path: Path, which: Which)
    requires j < k < |cs| && Unique(GatherAll(cs, path, IdFact(which)))
    requires GoodChild(cs, j, nat', which) && GoodChild(cs, k, nat', which)
    ensures Id(cs[j].info, which).None? || Id(cs[j].info, which) != Id(cs[k].info, which)
  {
    var f := IdFact(which);
    GatherSplit(cs, k, path, f);
    GatherMember(cs[..k], j, path, f);
    if Id(cs[j].info, which).Some? {
      var x := Id(cs[j].info, which).value;
      assert x in Gather(cs[j], path + [cs[j].info.name], f);
      assert GatherAll(cs, path, f)[x] <= 1;
      assert x !in Gather(cs[k], path + [cs[k].info.name], f);
    }
  }

  // ------------------------------------------------ what a key says about its node

  ghost const InfoFact: Fact<(Path, Info)> := (p: Path, i: Info) => multiset{(p, i)}

  /**
   * Every node below the root has the builder's kind and spells its path in its key, duplicates with their id
   * appended.
   */
  predicate GoodInfo(path: Path, info: Info, nat': string, which: Which) {
    && |path| > 0 && AllSegments(path)
    && info.name == path[|path| - 1]
    && info.kind == (if which.ByFolder? then Folder else Collection)
    && var natural := nat' + "/" + Join(path, "/");
       info.key == natural || (Truthy(Id(info, which)) && info.key == natural + "#" + Id(info, which).value)
  }

  lemma ChildInfo(cs: seq<Tree>, j: nat, nat': string, which: Which)
    requires j < |cs| && GoodChild(cs, j, nat', which)
    ensures GoodInfo([cs[j].info.name], cs[j].info, nat', which)
  {
  }

  lemma DeeperInfo(name: string, rest: Path, info: Info, nat': string, which: Which)
    requires Segment(name) && GoodInfo(rest, info, nat' + "/" + name, which)
    ensures GoodInfo([name] + rest, info, nat', which)
  {
    JoinConcat([name], rest, "/");
    assert nat' + "/" + name + "/" + Join(rest, "/") == nat' + "/" + Join([name] + rest, "/");
  }

  lemma {:induction false} GoodInfos(t: Tree, nat': string, which: Which, path: Path, p: Path, i: Info)
    requires Good(t, nat', which) && (p, i) in Gather(t, path, InfoFact)
    ensures (p, i) == (path, t.info) || (path <= p && GoodInfo(p[|path|..], i, nat', which))
    decreases t
  {
    if (p, i) != (path, t.info) {
      var cs := t.children;
      var j := GatherAllMember(cs, path, InfoFact, (p, i));
      var name := cs[j].info.name;
      var here := path + [name];
      assert GoodChild(cs, j, nat', which);
      GoodInfos(cs[j], nat' + "/" + name, which, here, p, i);
      if (p, i) == (here, cs[j].info) {
        ChildInfo(cs, j, nat', which);
        assert p[|path|..] == [name];
      } else {
        DeeperInfo(name, p[|here|..], i, nat', which);
        assert p[|path|..] == [name] + p[|here|..];
      }
    }
  }

  lemma {:induction false} LastHashOf(s: string, id: string)
    requires '#' !in id
    ensures LastHash(s + "#" + id) == |s|
    decreases |id|
  {
    var whole := s + "#" + id;
    if id != "" {
      assert whole[|whole| - 1] == id[|id| - 1];
      assert whole[..|whole| - 1] == s + "#" + id[..|id| - 1];
      LastHashOf(s, id[..|id| - 1]);
    }
  }

  // ------------------------------------------------------------- whose nodes they are

  /** Every node at or below this one belongs to that organization, or to none. */
  predicate Owned(t: Tree, org: Option<string>)
    decreases t
  {
    t.info.organizationId == org && forall i :: 0 <= i < |t.children| ==> Owned(t.children[i], org)
  }

  predicate AllOwned(cs: seq<Tree>, org: Option<string>) {
    forall i :: 0 <= i < |cs| ==> Owned(cs[i], org)
  }

  lemma {:induction false} InsertOwned(t: Tree, segments: Path, leaf: Leaf, acc: string)
    requires Owned(t, leaf.organizationId)
    ensures Owned(InsertIntoTree(t, segments, leaf, acc), leaf.organizationId)
    decreases |segments|
  {
    if |segments| > 1 {
      var seg, rest, cs := segments[0], segments[1..], t.children;
      var key, k := acc + "/" + seg, First(cs, seg, false);
      InsertOwned(if k < |cs| then cs[k] else Node(SyntheticInfo(key, seg, leaf), [], 0), rest, leaf, key);
    }
  }

  lemma {:induction false} InsertAllOwned(t: Tree, insertions: seq<Insertion>, org: Option<string>)
    requires Owned(t, org) && forall i :: 0 <= i < |insertions| ==> insertions[i].leaf.organizationId == org
    ensures Owned(InsertAll(t, insertions), org)
    decreases |insertions|
  {
    if insertions != [] {
      hide Owned, InsertIntoTree;
      InsertOwned(t, insertions[0].segments, insertions[0].leaf, t.info.key);
      InsertAllOwned(
        InsertIntoTree(t, insertions[0].segments, insertions[0].leaf, t.info.key), insertions[1..], org);
    }
  }

  lemma {:induction false} CountsOwned(t: Tree, which: Which, tally: map<string, nat>, org: Option<string>)
    requires Owned(t, org)
    ensures Owned(WithCounts(t, which, tally), org)
    decreases t, 1
  {
    CountsAllOwned(t.children, which, tally, org);
  }

  lemma {:induction false} CountsAllOwned(cs: seq<Tree>, which: Which, tally: map<string, nat>, org: Option<string>)
    requires AllOwned(cs, org)
    ensures AllOwned(WithCountsAll(cs, which, tally), org)
    decreases cs, 0
  {
    if cs != [] {
      CountsOwned(cs[0], which, tally, org);
      CountsAllOwned(cs[1..], which, tally, org);
      hide Owned, WithCounts;
    }
  }

  lemma {:induction false} SortedOwned(cs: seq<Tree>, leq: NameOrder, org: Option<string>)
    requires AllOwned(cs, org)
    ensures AllOwned(SortByName(cs, leq), org)
  {
    if cs != [] {
      SortedOwned(cs[1..], leq, org);
      InsertSortedOwned(cs[0], SortByName(cs[1..], leq), leq, org);
      hide Owned, InsertSorted;
    }
  }

  lemma {:induction false} InsertSortedOwned(x: Tree, cs: seq<Tree>, leq: NameOrder, org: Option<string>)
    requires Owned(x, org) && AllOwned(cs, org)
    ensures AllOwned(InsertSorted(x, cs, leq), org)
  {
    hide Owned;
    if cs != [] && !leq(x.info.name, cs[0].info.name) {
      InsertSortedOwned(x, cs[1..], leq, org);
    }
  }

  lemma {:induction false} SortOwned(t: Tree, leq: NameOrder, org: Option<string>)
    requires Owned(t, org)
    ensures Owned(SortTree(t, leq), org)
    decreases t, 1
  {
    SortAllOwned(t.children, leq, org);
    SortedOwned(SortAll(t.children, leq), leq, org);
  }

  lemma {:induction false} SortAllOwned(cs: seq<Tree>, leq: NameOrder, org: Option<string>)
    requires AllOwned(cs, org)
    ensures AllOwned(SortAll(cs, leq), org)
    decreases cs, 0
  {
    if cs != [] {
      SortOwned(cs[0], leq, org);
      SortAllOwned(cs[1..], leq, org);
      hide Owned, SortTree;
    }
  }

  /** Every node of a folder tree belongs to nobody, and every node of an organization's tree to that organization. */
  lemma BuiltOwned(
    folders: seq<FolderSummary>, org: OrganizationSummary, collections: seq<CollectionSummary>,
    byFolder: map<string, nat>, byOrg: map<string, nat>, byCollection: map<string, nat>, leq: NameOrder)
    ensures Owned(BuildFolderTree(folders, byFolder, leq), None)
    ensures Owned(BuildOrgTree(org, collections, byOrg, byCollection, leq), Some(org.id))
  {
    var root, orgRoot := Node(FOLDERS_ROOT, [], 0), OrgRoot(org, byOrg);
    var own := CollectionInsertions(collections, org.id);
    InsertAllOwned(root, FolderInsertions(folders), None);
    InsertAllOwned(orgRoot, own, Some(org.id));
    hide Owned, InsertAll, WithCounts, SortTree;
    var grown, grownOrg := InsertAll(root, FolderInsertions(folders)), InsertAll(orgRoot, own);
    CountsOwned(grown, ByFolder, byFolder, None);
    CountsOwned(grownOrg, ByCollection, byCollection, Some(org.id));
    SortOwned(WithCounts(grown, ByFolder, byFolder), leq, None);
    SortOwned(WithCounts(grownOrg, ByCollection, byCollection), leq, Some(org.id));
  }
}
