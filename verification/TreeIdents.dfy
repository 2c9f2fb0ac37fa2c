/**
 * The keys of the sidebar tree. A node is known by its path and, where an earlier node has the same path, by its id;
 * its key spells that. Two nodes share a key exactly when a name with a `#` in it imitates such an id.
 */
module TreeIdents {
  import opened Optional
  import opened Text
  import opened Tree
  import opened TreeShape

  /** Which node it is: the first one at its path, or a later one, by its id. */
  datatype Ident = Natural(path: Path) | Duplicate(path: Path, id: string)

  function NaturalKey(root: string, path: Path): string {
    if path == [] then root else root + "/" + Join(path, "/")
  }

  function Spell(root: string, x: Ident): string {
    match x
    case Natural(path) => NaturalKey(root, path)
    case Duplicate(path, id) => NaturalKey(root, path) + "#" + id
  }

  function IdentOf(root: string, which: Which, path: Path, info: Info): Ident {
    if info.key == NaturalKey(root, path) then Natural(path)
    else Duplicate(path, if Id(info, which).Some? then Id(info, which).value else "")
  }

  ghost function IdentFact(root: string, which: Which): Fact<Ident> {
    (p: Path, i: Info) => multiset{IdentOf(root, which, p, i)}
  }

  ghost function Idents(t: Tree, root: string, which: Which): multiset<Ident> {
    Gather(t, [], IdentFact(root, which))
  }

  lemma NaturalKeyDown(root: string, path: Path, name: string)
    ensures NaturalKey(root, path + [name]) == NaturalKey(root, path) + "/" + name
  {
    if path == [] {
      assert path + [name] == [name];
    } else {
      JoinAppend(path, name, "/");
    }
  }

  // ------------------------------------------------------------ idents are unique

  /** Everything below a child of path `here`: that child itself, or a longer path. */
  lemma {:induction false} IdentsBelow(t: Tree, here: Path, root: string, which: Which, x: Ident)
    requires x in Gather(t, here, IdentFact(root, which))
    ensures here <= x.path && (|x.path| == |here| ==> x == IdentOf(root, which, here, t.info))
    ensures t.children == [] ==> x == IdentOf(root, which, here, t.info)
    decreases t
  {
    if x != IdentOf(root, which, here, t.info) {
      var j := GatherAllMember(t.children, here, IdentFact(root, which), x);
      IdentsBelow(t.children[j], here + [t.children[j].info.name], root, which, x);
    }
  }

  lemma ChildIdent(cs: seq<Tree>, i: nat, root: string, path: Path, which: Which)
    requires i < |cs| && GoodChild(cs, i, NaturalKey(root, path), which)
    ensures var here := path + [cs[i].info.name];
      IdentOf(root, which, here, cs[i].info) ==
        if First(cs, cs[i].info.name, false) == i then Natural(here) else Duplicate(here, Id(cs[i].info, which).value)
  {
    NaturalKeyDown(root, path, cs[i].info.name);
    var natural := NaturalKey(root, path) + "/" + cs[i].info.name;
    if First(cs, cs[i].info.name, false) != i {
      assert |natural + "#" + Id(cs[i].info, which).value| > |natural|;
    }
  }

  lemma IdentsBelowChild(c: Tree, path: Path, root: string, which: Which, x: Ident)
    requires x in Gather(c, path + [c.info.name], IdentFact(root, which))
    ensures path <= x.path && |path| < |x.path| && x.path[|path|] == c.info.name
  {
    var here := path + [c.info.name];
    IdentsBelow(c, here, root, which, x);
    assert here[|path|] == x.path[|path|] && here[..|path|] == path;
  }

  lemma SiblingIdentsApart(cs: seq<Tree>, i: nat, j: nat, root: string, path: Path, which: Which, x: Ident)
    requires i < j < |cs|
    requires GoodChild(cs, i, NaturalKey(root, path), which) && GoodChild(cs, j, NaturalKey(root, path), which)
    requires Id(cs[i].info, which).None? || Id(cs[i].info, which) != Id(cs[j].info, which)
    requires x in FactsOf(cs, i, path, IdentFact(root, which))
    ensures x !in FactsOf(cs, j, path, IdentFact(root, which))
  {
    var a, b := path + [cs[i].info.name], path + [cs[j].info.name];
    IdentsBelow(cs[i], a, root, which, x);
    IdentsBelowChild(cs[i], path, root, which, x);
    ChildIdent(cs, i, root, path, which);
    ChildIdent(cs, j, root, path, which);
    if x in FactsOf(cs, j, path, IdentFact(root, which)) {
      IdentsBelowChild(cs[j], path, root, which, x);
      if cs[i].info.name == cs[j].info.name {
        IdentsBelow(cs[j], b, root, which, x);
      }
    }
  }

  /** In a tree of the right shape with distinct ids no two nodes are taken for each other. */
  lemma {:induction false} IdentsUnique(t: Tree, root: string, path: Path, which: Which)
    requires Good(t, NaturalKey(root, path), which) && Unique(GatherAll(t.children, path, IdFact(which)))
    requires t.info.key == NaturalKey(root, path) || t.children == []
    ensures Unique(Gather(t, path, IdentFact(root, which)))
    decreases t
  {
    var cs, f := t.children, IdentFact(root, which);
    if cs != [] {
      forall i: nat | i < |cs| ensures Unique(FactsOf(cs, i, path, f)) {
        GoodBelow(t, NaturalKey(root, path), which, i, path);
        NaturalKeyDown(root, path, cs[i].info.name);
        IdentsUnique(cs[i], root, path + [cs[i].info.name], which);
      }
      ChildrenShareNothing(t, root, path, which);
      PairwiseUnique(cs, |cs|, path, f);
      assert cs[..|cs|] == cs;
      SelfApart(t, root, path, which);
    }
  }

  lemma ChildrenShareNothing(t: Tree, root: string, path: Path, which: Which)
    requires Good(t, NaturalKey(root, path), which) && Unique(GatherAll(t.children, path, IdFact(which)))
    ensures NoneShared(t.children, path, IdentFact(root, which))
  {
    hide Gather, GatherAll, FactsOf;
    var cs, f := t.children, IdentFact(root, which);
    forall i: nat, j: nat, x | i < j < |cs| && x in FactsOf(cs, i, path, f) ensures x !in FactsOf(cs, j, path, f) {
      GoodBelow(t, NaturalKey(root, path), which, i, path);
      GoodBelow(t, NaturalKey(root, path), which, j, path);
      IdsApart(cs, i, j, NaturalKey(root, path), path, which);
      SiblingIdentsApart(cs, i, j, root, path, which, x);
    }
  }

  lemma SelfApart(t: Tree, root: string, path: Path, which: Which)
    ensures IdentOf(root, which, path, t.info) !in GatherAll(t.children, path, IdentFact(root, which))
  {
    var cs, x := t.children, IdentOf(root, which, path, t.info);
    if x in GatherAll(cs, path, IdentFact(root, which)) {
      var j := GatherAllMember(cs, path, IdentFact(root, which), x);
      IdentsBelow(cs[j], path + [cs[j].info.name], root, which, x);
    }
  }

  // -------------------------------------------- nodes in a list, to compare keys

  /** All nodes with their paths. */
  function Flat(t: Tree, path: Path): seq<(Path, Info)>
    decreases t, 1
  {
    [(path, t.info)] + FlatAll(t.children, path)
  }

  function FlatAll(cs: seq<Tree>, path: Path): seq<(Path, Info)>
    decreases cs, 0
  {
    if cs == [] then [] else Flat(cs[0], path + [cs[0].info.name]) + FlatAll(cs[1..], path)
  }

  function Mapped<X>(l: seq<(Path, Info)>, h: (Path, Info) -> X): (r: seq<X>)
    ensures |r| == |l|
  {
    seq(|l|, k requires 0 <= k < |l| => h(l[k].0, l[k].1))
  }

  lemma MappedConcat<X>(a: seq<(Path, Info)>, b: seq<(Path, Info)>, h: (Path, Info) -> X)
    ensures Mapped(a + b, h) == Mapped(a, h) + Mapped(b, h)
  {
  }

  /** `f` reports one fact of every node. */
  ghost predicate OneEach<X(!new)>(f: Fact<X>, h: (Path, Info) -> X) {
    forall p, i :: f(p, i) == multiset{h(p, i)}
  }

  lemma {:induction false} FlatGathers<X(!new)>(t: Tree, path: Path, f: Fact<X>, h: (Path, Info) -> X)
    requires OneEach(f, h)
    ensures Gather(t, path, f) == multiset(Mapped(Flat(t, path), h))
    decreases t, 1
  {
    FlatGathersAll(t.children, path, f, h);
    MappedConcat([(path, t.info)], FlatAll(t.children, path), h);
    assert Mapped([(path, t.info)], h) == [h(path, t.info)];
  }

  lemma {:induction false} FlatGathersAll<X(!new)>(cs: seq<Tree>, path: Path, f: Fact<X>, h: (Path, Info) -> X)
    requires OneEach(f, h)
    ensures GatherAll(cs, path, f) == multiset(Mapped(FlatAll(cs, path), h))
    decreases cs, 0
  {
    if cs != [] {
      FlatGathers(cs[0], path + [cs[0].info.name], f, h);
      FlatGathersAll(cs[1..], path, f, h);
      MappedConcat(Flat(cs[0], path + [cs[0].info.name]), FlatAll(cs[1..], path), h);
    }
  }

  ghost predicate NoRepeats<X(!new)>(l: seq<X>) {
    forall i, j :: 0 <= i < j < |l| ==> l[i] != l[j]
  }

  lemma {:induction false} UniqueIsNoRepeats<X(!new)>(l: seq<X>)
    ensures Unique(multiset(l)) <==> NoRepeats(l)
  {
    if l != [] {
      var rest := l[1..];
      UniqueIsNoRepeats(rest);
      assert l == [l[0]] + rest;
      assert forall x :: multiset(l)[x] == multiset(rest)[x] + if x == l[0] then 1 else 0;
      if l[0] in rest {
        assert multiset(l)[l[0]] >= 2;
        var j :| 0 <= j < |rest| && rest[j] == l[0];
        assert l[0] == l[j + 1];
      } else {
        RepeatsCons(l[0], rest);
      }
    }
  }

  lemma RepeatsCons<X(!new)>(x: X, l: seq<X>)
    requires x !in l
    ensures NoRepeats([x] + l) <==> NoRepeats(l)
  {
    var all := [x] + l;
    if NoRepeats(all) {
      forall i, j | 0 <= i < j < |l| ensures l[i] != l[j] {
        assert all[i + 1] != all[j + 1];
      }
    }
  }

  // --------------------------------------------------------- when two keys agree

  /** The path whose natural key is the key of the duplicate at `path` with this id. */
  function Imitation(path: Path, id: string): Path
    requires path != []
  {
    path[..|path| - 1] + [path[|path| - 1] + "#" + id]
  }

  predicate Proper(x: Ident) {
    AllSegments(x.path) && (x.Duplicate? ==> x.path != [] && Plain(x.id))
  }

  /** `y` is the node whose natural key imitates the duplicate `x`. */
  predicate Imitates(y: Ident, x: Ident) {
    x.Duplicate? && x.path != [] && y == Natural(Imitation(x.path, x.id))
  }

  lemma {:induction false} JoinLast(path: Path, more: string)
    requires path != []
    ensures Join(path, "/") + more == Join(path[..|path| - 1] + [path[|path| - 1] + more], "/")
  {
    var front, last := path[..|path| - 1], path[|path| - 1];
    assert path == front + [last];
    if front != [] {
      JoinAppend(front, last, "/");
      JoinAppend(front, last + more, "/");
    }
  }

  lemma SamePath(p: Path, q: Path)
    requires p != [] && q != [] && Join(p, "/") == Join(q, "/")
    requires (forall i :: 0 <= i < |p| ==> '/' !in p[i]) && forall i :: 0 <= i < |q| ==> '/' !in q[i]
    ensures p == q
  {
    SplitJoin(p, '/');
    SplitJoin(q, '/');
  }

  lemma ImitationSpells(root: string, path: Path, id: string)
    requires path != []
    ensures Spell(root, Duplicate(path, id)) == Spell(root, Natural(Imitation(path, id)))
  {
    JoinLast(path, "#" + id);
    assert path[|path| - 1] + "#" + id == path[|path| - 1] + ("#" + id);
    assert NaturalKey(root, path) + "#" + id == root + "/" + (Join(path, "/") + ("#" + id));
  }

  lemma SameNatural(root: string, p: Path, q: Path)
    requires AllSegments(p) && (forall i :: 0 <= i < |q| ==> '/' !in q[i]) && NaturalKey(root, p) == NaturalKey(root, q)
    ensures p == q
  {
    if p != [] && q != [] {
      var k := root + "/";
      assert NaturalKey(root, p)[|k|..] == Join(p, "/") && NaturalKey(root, q)[|k|..] == Join(q, "/");
      SamePath(p, q);
    } else {
      assert |NaturalKey(root, p)| == |NaturalKey(root, q)|;
    }
  }

  lemma {:induction false} SameTail(a: string, x: string, b: string, y: string)
    requires a + "#" + x == b + "#" + y && '#' !in x && '#' !in y
    ensures a == b && x == y
  {
    var s := a + "#" + x;
    assert s[|a|] == '#' && s[|b|] == '#' && s[|a| + 1..] == x && s[|b| + 1..] == y;
    assert s[..|a|] == a && s[..|b|] == b;
  }

  /** Different nodes have one key exactly when one is a duplicate and the other's name imitates it. */
  lemma SameKeyExactly(root: string, x: Ident, y: Ident)
    requires Proper(x) && Proper(y)
    ensures Spell(root, x) == Spell(root, y) <==> x == y || Imitates(x, y) || Imitates(y, x)
  {
    if Imitates(y, x) {
      ImitationSpells(root, x.path, x.id);
    } else if Imitates(x, y) {
      ImitationSpells(root, y.path, y.id);
    } else if x != y && Spell(root, x) == Spell(root, y) {
      if x.Duplicate? && y.Duplicate? {
        SameTail(NaturalKey(root, x.path), x.id, NaturalKey(root, y.path), y.id);
        SameNatural(root, x.path, y.path);
      } else if x.Natural? && y.Natural? {
        SameNatural(root, x.path, y.path);
      } else if x.Duplicate? {
        ImitationSpells(root, x.path, x.id);
        SameNatural(root, y.path, Imitation(x.path, x.id));
      } else {
        ImitationSpells(root, y.path, y.id);
        SameNatural(root, x.path, Imitation(y.path, y.id));
      }
    }
  }

  /** Some duplicate of the tree is imitated by another node. */
  ghost predicate SomeImitation(t: Tree, root: string, which: Which) {
    exists x: Ident :: x.Duplicate? && x in Idents(t, root, which) && x.path != []
      && Natural(Imitation(x.path, x.id)) in Idents(t, root, which)
  }

  /** Every key is spelled from the node's ident, and idents are proper. */
  ghost predicate WellKeyed(t: Tree, root: string, which: Which) {
    && Unique(Idents(t, root, which))
    && forall p, i :: (p, i) in Gather(t, [], InfoFact) ==>
      var x := IdentOf(root, which, p, i); Proper(x) && i.key == Spell(root, x)
  }

  /** Spelled from proper idents without repeats, keys repeat exactly where one ident imitates another. */
  lemma SpelledApartExactly(root: string, xs: seq<Ident>, keys: seq<string>)
    requires |xs| == |keys| && NoRepeats(xs)
    requires forall k :: 0 <= k < |xs| ==> Proper(xs[k]) && keys[k] == Spell(root, xs[k])
    ensures NoRepeats(keys) <==> forall a, b :: 0 <= a < |xs| && 0 <= b < |xs| ==> !Imitates(xs[b], xs[a])
  {
    hide Spell, Imitates, Proper;
    forall a, b | 0 <= a < |xs| && 0 <= b < |xs| && Imitates(xs[b], xs[a]) ensures a != b && keys[a] == keys[b] {
      SameKeyExactly(root, xs[a], xs[b]);
      NotItself(xs[a], xs[b]);
    }
    if forall a, b :: 0 <= a < |xs| && 0 <= b < |xs| ==> !Imitates(xs[b], xs[a]) {
      forall a, b | 0 <= a < b < |keys| ensures keys[a] != keys[b] {
        SameKeyExactly(root, xs[a], xs[b]);
      }
    }
  }

  lemma NotItself(x: Ident, y: Ident)
    requires Imitates(y, x)
    ensures x != y
  {
  }

  lemma {:induction false} KeysUniqueExactly(t: Tree, root: string, which: Which)
    requires WellKeyed(t, root, which)
    ensures Unique(Keys(t)) <==> !SomeImitation(t, root, which)
  {
    hide Flat, Gather, GatherAll, Spell, Proper, IdentOf, NoRepeats, Unique;
    var l := Flat(t, []);
    var key := (p: Path, i: Info) => i.key;
    var ident := (p: Path, i: Info) => IdentOf(root, which, p, i);
    var pair := (p: Path, i: Info) => (p, i);
    FlatGathers(t, [], KeyFact, key);
    FlatGathers(t, [], IdentFact(root, which), ident);
    FlatGathers(t, [], InfoFact, pair);
    var keys, xs := Mapped(l, key), Mapped(l, ident);
    UniqueIsNoRepeats(keys);
    UniqueIsNoRepeats(xs);
    forall k | 0 <= k < |l| ensures Proper(xs[k]) && keys[k] == Spell(root, xs[k]) {
      assert Mapped(l, pair)[k] in multiset(Mapped(l, pair));
    }
    SpelledApartExactly(root, xs, keys);
    ImitationAmong(t, root, which, xs);
  }

  lemma ImitationAmong(t: Tree, root: string, which: Which, xs: seq<Ident>)
    requires Idents(t, root, which) == multiset(xs)
    ensures SomeImitation(t, root, which)
      <==> exists a, b :: 0 <= a < |xs| && 0 <= b < |xs| && Imitates(xs[b], xs[a])
  {
    hide Idents;
    if SomeImitation(t, root, which) {
      var x: Ident :| x.Duplicate? && x in multiset(xs) && x.path != []
        && Natural(Imitation(x.path, x.id)) in multiset(xs);
      var a :| 0 <= a < |xs| && xs[a] == x;
      var b :| 0 <= b < |xs| && xs[b] == Natural(Imitation(x.path, x.id));
      assert Imitates(xs[b], xs[a]);
    }
    if a, b :| 0 <= a < |xs| && 0 <= b < |xs| && Imitates(xs[b], xs[a]) {
      assert xs[a] in multiset(xs) && xs[b] in multiset(xs);
    }
  }

  /** A tree of the right shape is well keyed. */
  lemma GoodIsWellKeyed(t: Tree, which: Which)
    requires Good(t, t.info.key, which) && Unique(Ids(t, which)) && Id(t.info, which).None?
    requires forall id :: id in Ids(t, which) ==> Plain(id)
    ensures WellKeyed(t, t.info.key, which)
  {
    var root := t.info.key;
    SubUnique(GatherAll(t.children, [], IdFact(which)), Ids(t, which));
    IdentsUnique(t, root, [], which);
    forall p, i | (p, i) in Gather(t, [], InfoFact)
      ensures var x := IdentOf(root, which, p, i); Proper(x) && i.key == Spell(root, x)
    {
      GoodInfos(t, root, which, [], p, i);
      assert p[0..] == p;
      if (p, i) != ([], t.info) {
        var natural := NaturalKey(root, p);
        if i.key != natural {
          InfoId(t, which, [], p, i);
        }
      }
    }
  }

  lemma {:induction false} InfoId(t: Tree, which: Which, path: Path, p: Path, i: Info)
    requires (p, i) in Gather(t, path, InfoFact) && Truthy(Id(i, which))
    ensures Id(i, which).value in Gather(t, path, IdFact(which))
    ensures (p, Id(i, which).value) in Gather(t, path, PlaceFact(which))
    decreases t
  {
    if (p, i) != (path, t.info) {
      var j := GatherAllMember(t.children, path, InfoFact, (p, i));
      InfoId(t.children[j], which, path + [t.children[j].info.name], p, i);
      GatherMember(t.children, j, path, IdFact(which));
      GatherMember(t.children, j, path, PlaceFact(which));
    }
  }

  // -------------------------------------------------- what an insertion adds to them

  /** A node with an id sits at this path. */
  ghost predicate RealAt(t: Tree, here: Path, p: Path, which: Which) {
    exists id :: (p, id) in Gather(t, here, PlaceFact(which))
  }

  lemma {:induction false} PlaceBelow(t: Tree, here: Path, which: Which, p: Path, id: string)
    requires (p, id) in Gather(t, here, PlaceFact(which))
    ensures here <= p && (p == here ==> Truthy(Id(t.info, which))) && (p != here ==> t.children != [])
    decreases t
  {
    if (p, id) !in PlaceFact(which)(here, t.info) {
      var j := GatherAllMember(t.children, here, PlaceFact(which), (p, id));
      PlaceBelow(t.children[j], here + [t.children[j].info.name], which, p, id);
    }
  }

  /** A place at or below a child of `t`. */
  lemma PlaceInChild(t: Tree, here: Path, which: Which, segments: Path, id: string) returns (j: nat)
    requires segments != [] && (here + segments, id) in Gather(t, here, PlaceFact(which))
    ensures j < |t.children| && t.children[j].info.name == segments[0]
    ensures (here + segments, id) in Gather(t.children[j], here + [segments[0]], PlaceFact(which))
    ensures if |segments| == 1 then Truthy(Id(t.children[j].info, which)) else t.children[j].children != []
  {
    var p := here + segments;
    assert p != here;
    j := GatherAllMember(t.children, here, PlaceFact(which), (p, id));
    var below := here + [t.children[j].info.name];
    PlaceBelow(t.children[j], below, which, p, id);
    assert below[|here|] == p[|here|] == segments[0];
    if |segments| == 1 {
      assert p == below;
    }
  }

  lemma {:induction false} ChildPlace(t: Tree, here: Path, which: Which, j: nat, p: Path, id: string)
    requires j < |t.children| && (p, id) in Gather(t.children[j], here + [t.children[j].info.name], PlaceFact(which))
    ensures RealAt(t, here, p, which)
  {
    GatherMember(t.children, j, here, PlaceFact(which));
    assert (p, id) in Gather(t, here, PlaceFact(which));
  }

  /** Directly below: there is a real node of that name exactly when there is one, and none is synthetic. */
  lemma RealChildExactly(t: Tree, acc: string, which: Which, here: Path, seg: string)
    requires Good(t, acc, which)
    ensures RealAt(t, here, here + [seg], which)
      <==> First(t.children, seg, true) == |t.children| && First(t.children, seg, false) < |t.children|
  {
    var cs := t.children;
    var k, first := First(cs, seg, true), First(cs, seg, false);
    assert k < |cs| ==> GoodChild(cs, k, acc, which);
    if RealAt(t, here, here + [seg], which) {
      var id :| (here + [seg], id) in Gather(t, here, PlaceFact(which));
      var j := PlaceInChild(t, here, which, [seg], id);
      assert GoodChild(cs, j, acc, which);
    }
    if k == |cs| && first < |cs| {
      var c := cs[first];
      assert GoodChild(cs, first, acc, which) && !Matches(c, seg, true);
      assert (here + [seg], Id(c.info, which).value) in Gather(c, here + [seg], PlaceFact(which));
      ChildPlace(t, here, which, first, here + [seg], Id(c.info, which).value);
    }
  }

  lemma ParentIsFirst(t: Tree, acc: string, which: Which, j: nat)
    requires Good(t, acc, which) && j < |t.children| && t.children[j].children != []
    ensures First(t.children, t.children[j].info.name, false) == j
  {
    assert GoodChild(t.children, j, acc, which);
  }

  /** Further down: only the first child of the name has anything below it. */
  lemma RealBelowExactly(t: Tree, acc: string, which: Which, here: Path, seg: string, rest: Path)
    requires Good(t, acc, which) && rest != []
    ensures var k := First(t.children, seg, false);
      RealAt(t, here, here + [seg] + rest, which)
      <==> k < |t.children| && RealAt(t.children[k], here + [seg], here + [seg] + rest, which)
  {
    hide Good, Gather, GatherAll, First;
    var cs, p := t.children, here + [seg] + rest;
    var k := First(cs, seg, false);
    assert p == here + ([seg] + rest);
    if RealAt(t, here, p, which) {
      var id :| (p, id) in Gather(t, here, PlaceFact(which));
      var j := PlaceInChild(t, here, which, [seg] + rest, id);
      ParentIsFirst(t, acc, which, j);
    }
    if k < |cs| && RealAt(cs[k], here + [seg], p, which) {
      var id :| (p, id) in Gather(cs[k], here + [seg], PlaceFact(which));
      ChildPlace(t, here, which, k, p, id);
    }
  }

  /**
   * What an insertion at `here + segments` adds: the first nodes on the way, and a duplicate if the place was
   * taken.
   */
  ghost predicate Added(t: Tree, here: Path, segments: Path, id: string, which: Which, x: Ident) {
    || (x.Natural? && here <= x.path <= here + segments && x.path != here)
    || (x == Duplicate(here + segments, id) && RealAt(t, here, here + segments, which))
  }

  /** The first child of a name is the natural one. */
  lemma FirstIsNatural(t: Tree, root: string, which: Which, here: Path, seg: string)
    requires Good(t, NaturalKey(root, here), which) && First(t.children, seg, false) < |t.children|
    ensures var c, below := t.children[First(t.children, seg, false)], here + [seg];
      && c.info.name == seg && IdentOf(root, which, below, c.info) == Natural(below)
      && Natural(below) in Gather(c, below, IdentFact(root, which))
      && Natural(below) in Gather(t, here, IdentFact(root, which))
  {
    var first := First(t.children, seg, false);
    assert GoodChild(t.children, first, NaturalKey(root, here), which);
    ChildIdent(t.children, first, root, here, which);
    hide Good, GoodChild, NaturalKey, First, IdentOf;
    OwnAndBelow(t.children[first], here + [seg], IdentFact(root, which));
    OwnAndBelow(t, here, IdentFact(root, which));
    hide Gather, GatherAll;
    GatherMember(t.children, first, here, IdentFact(root, which));
  }

  lemma PromotionAddsNone(t: Tree, seg: string, leaf: Leaf, root: string, which: Which, here: Path)
    requires Good(t, NaturalKey(root, here), which) && First(t.children, seg, true) < |t.children|
    ensures var f := IdentFact(root, which);
      Gather(InsertIntoTree(t, [seg], leaf, NaturalKey(root, here)), here, f) == Gather(t, here, f)
  {
    var cs, f := t.children, IdentFact(root, which);
    var k := First(cs, seg, true);
    assert GoodChild(cs, k, NaturalKey(root, here), which);
    SoleSynthetic(cs, k, seg, NaturalKey(root, here), which);
    FirstIsNatural(t, root, which, here, seg);
    ReplaceChild(t, k, cs[k].(info := Promote(cs[k].info, leaf)), here, f, multiset{});
  }

  lemma NewLeafIdent(seg: string, leaf: Leaf, root: string, which: Which, id: string, here: Path, taken: bool)
    requires LeafOf(leaf, which, id)
    ensures IdentOf(root, which, here + [seg], LeafInfo(NaturalKey(root, here) + "/" + seg, seg, leaf, taken))
      == if taken then Duplicate(here + [seg], id) else Natural(here + [seg])
  {
    NaturalKeyDown(root, here, seg);
    hide NaturalKey;
    assert |NaturalKey(root, here) + "/" + seg + "#" + id| > |NaturalKey(root, here) + "/" + seg|;
  }

  lemma InsertsLeaf(t: Tree, seg: string, leaf: Leaf, acc: string)
    requires First(t.children, seg, true) == |t.children|
    ensures var taken := First(t.children, seg, false) < |t.children|;
      InsertIntoTree(t, [seg], leaf, acc)
        == t.(children := t.children + [Node(LeafInfo(acc + "/" + seg, seg, leaf, taken), [], 0)])
  {
  }

  lemma NewLeafAddsOne(t: Tree, seg: string, leaf: Leaf, root: string, which: Which, id: string, here: Path)
    requires LeafOf(leaf, which, id) && First(t.children, seg, true) == |t.children|
    ensures var f, below := IdentFact(root, which), here + [seg];
      Gather(InsertIntoTree(t, [seg], leaf, NaturalKey(root, here)), here, f) == Gather(t, here, f)
        + multiset{if First(t.children, seg, false) < |t.children| then Duplicate(below, id) else Natural(below)}
  {
    hide Gather, GatherAll, InsertIntoTree, NaturalKey, First, IdentOf, LeafOf;
    var acc, f, taken := NaturalKey(root, here), IdentFact(root, which), First(t.children, seg, false) < |t.children|;
    var c := Node(LeafInfo(acc + "/" + seg, seg, leaf, taken), [], 0);
    InsertsLeaf(t, seg, leaf, acc);
    NewLeafIdent(seg, leaf, root, which, id, here, taken);
    AddChild(t, c, here, f);
    LoneNode(c, here + [seg], f);
  }

  lemma PrefixOfOne(here: Path, seg: string, p: Path)
    ensures here <= p <= here + [seg] && p != here <==> p == here + [seg]
  {
    if here <= p <= here + [seg] && p != here {
      assert |p| == |here| + 1;
    }
  }

  lemma LastSegmentIdents(
    t: Tree, seg: string, leaf: Leaf, root: string, which: Which, id: string, here: Path, x: Ident)
    requires LeafOf(leaf, which, id) && Good(t, NaturalKey(root, here), which) && Segment(seg)
    ensures var acc, f := NaturalKey(root, here), IdentFact(root, which);
      x in Gather(InsertIntoTree(t, [seg], leaf, acc), here, f)
      <==> x in Gather(t, here, f) || Added(t, here, [seg], id, which, x)
  {
    hide Gather, GatherAll, Good, InsertIntoTree, NaturalKey, First, RealAt, LeafOf;
    var cs := t.children;
    RealChildExactly(t, NaturalKey(root, here), which, here, seg);
    PrefixOfOne(here, seg, x.path);
    if First(cs, seg, false) < |cs| {
      FirstIsNatural(t, root, which, here, seg);
    }
    if First(cs, seg, true) < |cs| {
      SyntheticIsSome(cs, seg);
      PromotionAddsNone(t, seg, leaf, root, which, here);
    } else {
      NewLeafAddsOne(t, seg, leaf, root, which, id, here);
    }
  }

  lemma SyntheticIsSome(cs: seq<Tree>, seg: string)
    requires First(cs, seg, true) < |cs|
    ensures First(cs, seg, false) < |cs|
  {
  }

  lemma Exchanged<X(!new)>(before: multiset<X>, after: multiset<X>, a: multiset<X>, b: multiset<X>, x: X)
    requires after + a == before + b && a <= before && b <= after && (x in a ==> x in b)
    ensures x in after <==> x in before || x in b
    ensures x in a ==> x in before
  {
    assert (after + a)[x] == (before + b)[x];
    assert a[x] <= before[x] && b[x] <= after[x];
  }

  lemma OwnAndBelow<X>(t: Tree, here: Path, f: Fact<X>)
    ensures Gather(t, here, f) == f(here, t.info) + GatherAll(t.children, here, f)
  {
  }

  /** Facts of a tree with one subtree grown are the old ones and the grown subtree's. */
  lemma GrownFacts<X(!new)>(t: Tree, k: nat, c: Tree, here: Path, f: Fact<X>, x: X)
    requires k < |t.children| && c.info.name == t.children[k].info.name
    requires var below := here + [c.info.name]; x in Gather(t.children[k], below, f) ==> x in Gather(c, below, f)
    ensures x in Gather(t.(children := t.children[k := c]), here, f)
      <==> x in Gather(t, here, f) || x in Gather(c, here + [c.info.name], f)
    ensures x in Gather(t.children[k], here + [c.info.name], f) ==> x in Gather(t, here, f)
  {
    hide Gather, GatherAll;
    var cs', below := t.children[k := c], here + [c.info.name];
    GatherUpdate(t.children, k, c, here, f);
    GatherMember(t.children, k, here, f);
    GatherMember(cs', k, here, f);
    OwnAndBelow(t, here, f);
    OwnAndBelow(t.(children := cs'), here, f);
    Exchanged(GatherAll(t.children, here, f), GatherAll(cs', here, f), Gather(t.children[k], below, f),
      Gather(c, below, f), x);
  }

  lemma {:induction false} InsertIdents(
    t: Tree, segments: Path, leaf: Leaf, root: string, which: Which, id: string, here: Path, x: Ident)
    requires LeafOf(leaf, which, id) && Good(t, NaturalKey(root, here), which)
    requires segments != [] && AllSegments(segments)
    ensures var acc, f := NaturalKey(root, here), IdentFact(root, which);
      x in Gather(InsertIntoTree(t, segments, leaf, acc), here, f)
      <==> x in Gather(t, here, f) || Added(t, here, segments, id, which, x)
    decreases |segments|
  {
    hide Good, NaturalKey, LeafOf, Gather, GatherAll, InsertIntoTree, RealAt, Added, IdentFact, First, Entered;
    var seg, rest := segments[0], segments[1..];
    var acc, f, below := NaturalKey(root, here), IdentFact(root, which), here + [seg];
    NaturalKeyDown(root, here, seg);
    if rest == [] {
      assert segments == [seg];
      LastSegmentIdents(t, seg, leaf, root, which, id, here, x);
    } else {
      var c := Entered(t, seg, leaf, acc);
      var c' := InsertIntoTree(c, rest, leaf, acc + "/" + seg);
      EnteredIsGood(t, seg, leaf, root, which, here, rest);
      InsertIdents(c, rest, leaf, root, which, id, below, x);
      InsertKeepsInfo(c, rest, leaf, acc + "/" + seg);
      assert segments == [seg] + rest && here + segments == below + rest;
      SplitAdded(t, c, here, seg, rest, id, which, x);
      InsertDescends(t, segments, leaf, acc);
      if First(t.children, seg, false) < |t.children| {
        GrownFacts(t, First(t.children, seg, false), c', here, f, x);
      } else {
        AddChild(t, c', here, f);
      }
    }
  }

  /** The child an internal segment leads to. */
  function Entered(t: Tree, seg: string, leaf: Leaf, acc: string): Tree {
    var k := First(t.children, seg, false);
    if k < |t.children| then t.children[k] else Node(SyntheticInfo(acc + "/" + seg, seg, leaf), [], 0)
  }

  lemma InsertDescends(t: Tree, segments: Path, leaf: Leaf, acc: string)
    requires |segments| > 1
    ensures var k := First(t.children, segments[0], false);
      var c := InsertIntoTree(Entered(t, segments[0], leaf, acc), segments[1..], leaf, acc + "/" + segments[0]);
      InsertIntoTree(t, segments, leaf, acc)
        == t.(children := if k < |t.children| then t.children[k := c] else t.children + [c])
  {
  }

  lemma EnteredIsGood(t: Tree, seg: string, leaf: Leaf, root: string, which: Which, here: Path, rest: Path)
    requires Good(t, NaturalKey(root, here), which) && rest != []
    ensures var c, below := Entered(t, seg, leaf, NaturalKey(root, here)), here + [seg];
      && c.info.name == seg && Good(c, NaturalKey(root, below), which)
      && (First(t.children, seg, false) < |t.children| ==> c == t.children[First(t.children, seg, false)])
      && Natural(below) in Gather(c, below, IdentFact(root, which))
      && (First(t.children, seg, false) == |t.children| ==>
            Gather(c, below, IdentFact(root, which)) == multiset{Natural(below)})
      && (RealAt(c, below, here + [seg] + rest, which) <==> RealAt(t, here, here + [seg] + rest, which))
  {
    var acc, below, f := NaturalKey(root, here), here + [seg], IdentFact(root, which);
    var c, k := Entered(t, seg, leaf, acc), First(t.children, seg, false);
    NaturalKeyDown(root, here, seg);
    RealBelowExactly(t, acc, which, here, seg, rest);
    if k < |t.children| {
      FirstIsNatural(t, root, which, here, seg);
    } else {
      LoneNode(c, below, f);
      LoneNode(c, below, PlaceFact(which));
    }
  }

  lemma SplitAdded(t: Tree, c: Tree, here: Path, seg: string, rest: Path, id: string, which: Which, x: Ident)
    requires rest != []
    requires RealAt(c, here + [seg], here + [seg] + rest, which) <==> RealAt(t, here, here + [seg] + rest, which)
    ensures Added(t, here, [seg] + rest, id, which, x)
      <==> x == Natural(here + [seg]) || Added(c, here + [seg], rest, id, which, x)
  {
    var below := here + [seg];
    assert here + ([seg] + rest) == below + rest;
    if x.Natural? && here <= x.path <= below + rest && x.path != here {
      assert x.path[|here|] == seg && x.path[..|below|] == below;
    }
  }
}
