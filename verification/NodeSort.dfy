/** `sortTree` of src/lib/tree.ts, in place on the nodes. */
module NodeSort {
  import opened Optional
  import opened Tree
  import opened TreeNodes

  /** What every comparison by locale is: any two names are in some order. */
  ghost predicate Comparable(leq: NameOrder) {
    forall a, b :: leq(a, b) || leq(b, a)
  }

  // ------------------------------------------------------- sorting positions

  function NameOf(cells: seq<Cell>, id: nat): string {
    if id < |cells| then cells[id].info.name else ""
  }

  function InsertId(cells: seq<Cell>, x: nat, sorted: seq<nat>, leq: NameOrder): seq<nat> {
    if sorted == [] || leq(NameOf(cells, x), NameOf(cells, sorted[0])) then [x] + sorted
    else [sorted[0]] + InsertId(cells, x, sorted[1..], leq)
  }

  function SortIds(cells: seq<Cell>, ids: seq<nat>, leq: NameOrder): seq<nat> {
    if ids == [] then [] else InsertId(cells, ids[0], SortIds(cells, ids[1..], leq), leq)
  }

  predicate NoDuplicates(ids: seq<nat>) {
    forall i, j :: 0 <= i < j < |ids| ==> ids[i] != ids[j]
  }

  lemma NoDuplicatesCons(x: nat, l: seq<nat>)
    ensures NoDuplicates([x] + l) <==> x !in l && NoDuplicates(l)
  {
    var all := [x] + l;
    if NoDuplicates(all) {
      forall i | 0 <= i < |l| ensures l[i] != x {
        assert all[0] != all[i + 1];
      }
      forall i, j | 0 <= i < j < |l| ensures l[i] != l[j] {
        assert all[i + 1] != all[j + 1];
      }
    }
  }

  lemma {:induction false} InsertedIds(cells: seq<Cell>, x: nat, l: seq<nat>, leq: NameOrder)
    ensures var r := InsertId(cells, x, l, leq);
      |r| == |l| + 1 && (forall y :: y in r <==> y == x || y in l) && (x !in l && NoDuplicates(l) ==> NoDuplicates(r))
  {
    hide NoDuplicates;
    if l == [] || leq(NameOf(cells, x), NameOf(cells, l[0])) {
      NoDuplicatesCons(x, l);
    } else {
      assert l == [l[0]] + l[1..];
      InsertedIds(cells, x, l[1..], leq);
      NoDuplicatesCons(l[0], l[1..]);
      NoDuplicatesCons(l[0], InsertId(cells, x, l[1..], leq));
    }
  }

  /** Sorting loses, adds and repeats nothing. */
  lemma {:induction false} SortedIds(cells: seq<Cell>, ids: seq<nat>, leq: NameOrder)
    ensures var r := SortIds(cells, ids, leq);
      |r| == |ids| && (forall y :: y in r <==> y in ids) && (NoDuplicates(ids) ==> NoDuplicates(r))
  {
    if ids != [] {
      SortedIds(cells, ids[1..], leq);
      InsertedIds(cells, ids[0], SortIds(cells, ids[1..], leq), leq);
      assert ids == [ids[0]] + ids[1..];
      NoDuplicatesCons(ids[0], ids[1..]);
      hide NoDuplicates;
    }
  }

  predicate InOrder(cells: seq<Cell>, ids: seq<nat>, leq: NameOrder) {
    forall i :: 0 < i < |ids| ==> leq(NameOf(cells, ids[i - 1]), NameOf(cells, ids[i]))
  }

  lemma {:induction false} InsertedInOrder(cells: seq<Cell>, x: nat, l: seq<nat>, leq: NameOrder)
    requires Comparable(leq) && InOrder(cells, l, leq)
    ensures InOrder(cells, InsertId(cells, x, l, leq), leq)
  {
    if l != [] && !leq(NameOf(cells, x), NameOf(cells, l[0])) {
      assert l == [l[0]] + l[1..];
      InsertedInOrder(cells, x, l[1..], leq);
    }
  }

  lemma {:induction false} SortedInOrder(cells: seq<Cell>, ids: seq<nat>, leq: NameOrder)
    requires Comparable(leq)
    ensures InOrder(cells, SortIds(cells, ids, leq), leq)
  {
    if ids != [] {
      SortedInOrder(cells, ids[1..], leq);
      InsertedInOrder(cells, ids[0], SortIds(cells, ids[1..], leq), leq);
    }
  }

  lemma {:induction false} InOrderStays(cells: seq<Cell>, ids: seq<nat>, leq: NameOrder)
    requires InOrder(cells, ids, leq)
    ensures SortIds(cells, ids, leq) == ids
  {
    if ids != [] {
      var rest := ids[1..];
      assert InOrder(cells, rest, leq) by {
        forall i | 0 < i < |rest| ensures leq(NameOf(cells, rest[i - 1]), NameOf(cells, rest[i])) {
          assert rest[i - 1] == ids[i] && rest[i] == ids[i + 1];
        }
      }
      InOrderStays(cells, rest, leq);
      assert ids == [ids[0]] + rest;
      if rest != [] {
        assert rest[0] == ids[1];
      }
    }
  }

  /** Sorting a second time changes nothing. */
  lemma SortTwice(cells: seq<Cell>, ids: seq<nat>, leq: NameOrder)
    requires Comparable(leq)
    ensures SortIds(cells, SortIds(cells, ids, leq), leq) == SortIds(cells, ids, leq)
  {
    SortedInOrder(cells, ids, leq);
    InOrderStays(cells, SortIds(cells, ids, leq), leq);
  }

  // ------------------------------------------------ cells with some lists sorted

  function SortedKids(base: seq<Cell>, i: nat, leq: NameOrder): seq<nat>
    requires i < |base|
  {
    SortIds(base, base[i].children, leq)
  }

  /** Nothing but the order of children differs from `base`, and lists that differ are sorted. */
  predicate Arranged(base: seq<Cell>, cells: seq<Cell>, leq: NameOrder) {
    && |cells| == |base|
    && forall i :: 0 <= i < |base| ==>
      && cells[i].info == base[i].info && cells[i].itemCount == base[i].itemCount
      && (cells[i].children == base[i].children || cells[i].children == SortedKids(base, i, leq))
  }

  /** A list once sorted stays sorted. */
  predicate StaySorted(base: seq<Cell>, a: seq<Cell>, b: seq<Cell>, leq: NameOrder) {
    && |a| == |b| == |base|
    && forall i :: 0 <= i < |base| && a[i].children == SortedKids(base, i, leq) ==> b[i].children == a[i].children
  }

  lemma ArrangedChildren(base: seq<Cell>, cells: seq<Cell>, leq: NameOrder, i: nat)
    requires Arranged(base, cells, leq) && i < |base|
    ensures |cells[i].children| == |base[i].children|
    ensures forall y :: y in cells[i].children <==> y in base[i].children
    ensures NoDuplicates(base[i].children) ==> NoDuplicates(cells[i].children)
  {
    SortedIds(base, base[i].children, leq);
  }

  lemma ChildIn(cells: seq<Cell>, i: nat, k: nat) returns (c: nat)
    requires i < |cells| && k < |cells[i].children|
    ensures c == cells[i].children[k] && c in cells[i].children
  {
    c := cells[i].children[k];
  }

  lemma ArrangedOrdered(base: seq<Cell>, cells: seq<Cell>, leq: NameOrder)
    requires Ordered(base) && SingleParent(base) && Arranged(base, cells, leq)
    ensures Ordered(cells) && SingleParent(cells)
  {
    hide SortedKids;
    forall i, k | 0 <= i < |cells| && 0 <= k < |cells[i].children| ensures i < cells[i].children[k] < |cells| {
      ArrangedChildren(base, cells, leq, i);
      var c := ChildIn(cells, i, k);
      assert c in base[i].children;
    }
    forall i, k, j, l | 0 <= i < |cells| && 0 <= k < |cells[i].children| && 0 <= j < |cells|
      && 0 <= l < |cells[j].children|
        && cells[i].children[k] == cells[j].children[l]
      ensures i == j && k == l
    {
      ArrangedChildren(base, cells, leq, i);
      ArrangedChildren(base, cells, leq, j);
      var c := ChildIn(cells, i, k);
      var d := ChildIn(cells, j, l);
      assert c in base[i].children && c in base[j].children;
      assert NoDuplicates(base[i].children);
    }
  }

  /** All lists at and below `c` are sorted. */
  predicate SortedTo(base: seq<Cell>, cells: seq<Cell>, c: nat, leq: NameOrder)
    requires Ordered(cells) && |cells| == |base| && c < |base|
    decreases |cells| - c
  {
    && cells[c].children == SortedKids(base, c, leq)
    && forall k :: 0 <= k < |cells[c].children| ==> SortedTo(base, cells, cells[c].children[k], leq)
  }

  lemma {:induction false} SortedStays(base: seq<Cell>, a: seq<Cell>, b: seq<Cell>, c: nat, leq: NameOrder)
    requires Ordered(a) && Ordered(b) && StaySorted(base, a, b, leq) && c < |base|
    requires SortedTo(base, a, c, leq)
    ensures SortedTo(base, b, c, leq)
    decreases |a| - c
  {
    forall k | 0 <= k < |b[c].children| ensures SortedTo(base, b, b[c].children[k], leq) {
      SortedStays(base, a, b, a[c].children[k], leq);
    }
  }

  function Trees(cells: seq<Cell>, ids: seq<nat>): (ts: seq<Tree>)
    requires Ordered(cells) && forall k :: 0 <= k < |ids| ==> ids[k] < |cells|
    ensures |ts| == |ids|
  {
    seq(|ids|, k requires 0 <= k < |ids| => TreeOf(cells, ids[k]))
  }

  /** `t` is the tree of `id`, under the name `id` has in `base`. */
  predicate Stands(base: seq<Cell>, cells: seq<Cell>, id: nat, t: Tree)
    requires Ordered(cells)
  {
    id < |cells| && t == TreeOf(cells, id) && t.info.name == NameOf(base, id)
  }

  predicate AllStand(base: seq<Cell>, cells: seq<Cell>, ids: seq<nat>, ts: seq<Tree>)
    requires Ordered(cells)
  {
    |ids| == |ts| && forall k :: 0 <= k < |ids| ==> Stands(base, cells, ids[k], ts[k])
  }

  lemma AllStandCons(base: seq<Cell>, cells: seq<Cell>, ids: seq<nat>, ts: seq<Tree>, id: nat, t: Tree)
    requires Ordered(cells) && AllStand(base, cells, ids, ts) && Stands(base, cells, id, t)
    ensures AllStand(base, cells, [id] + ids, [t] + ts)
  {
    hide Stands;
  }

  lemma AllStandRest(base: seq<Cell>, cells: seq<Cell>, ids: seq<nat>, ts: seq<Tree>)
    requires Ordered(cells) && AllStand(base, cells, ids, ts) && ids != []
    ensures AllStand(base, cells, ids[1..], ts[1..]) && Stands(base, cells, ids[0], ts[0])
  {
    hide Stands;
  }

  lemma {:induction false} InsertStands(
    base: seq<Cell>, cells: seq<Cell>, ids: seq<nat>, ts: seq<Tree>, id: nat, t: Tree, leq: NameOrder)
    requires Ordered(cells) && AllStand(base, cells, ids, ts) && Stands(base, cells, id, t)
    ensures AllStand(base, cells, InsertId(base, id, ids, leq), InsertSorted(t, ts, leq))
  {
    hide AllStand, TreeOf;
    assert |ids| == |ts| by {
      SameLength(base, cells, ids, ts);
    }
    if ids == [] {
      AllStandCons(base, cells, ids, ts, id, t);
    } else {
      AllStandRest(base, cells, ids, ts);
      if leq(NameOf(base, id), NameOf(base, ids[0])) {
        AllStandCons(base, cells, ids, ts, id, t);
      } else {
        InsertStands(base, cells, ids[1..], ts[1..], id, t, leq);
        AllStandCons(base, cells, InsertId(base, id, ids[1..], leq), InsertSorted(t, ts[1..], leq), ids[0], ts[0]);
      }
    }
  }

  lemma SameLength(base: seq<Cell>, cells: seq<Cell>, ids: seq<nat>, ts: seq<Tree>)
    requires Ordered(cells) && AllStand(base, cells, ids, ts)
    ensures |ids| == |ts|
  {
  }

  /** Sorting positions and sorting the trees at them is the same. */
  lemma {:induction false} SortStands(base: seq<Cell>, cells: seq<Cell>, ids: seq<nat>, ts: seq<Tree>, leq: NameOrder)
    requires Ordered(cells) && AllStand(base, cells, ids, ts)
    ensures AllStand(base, cells, SortIds(base, ids, leq), SortByName(ts, leq))
  {
    if ids != [] {
      AllStandRest(base, cells, ids, ts);
      SortStands(base, cells, ids[1..], ts[1..], leq);
      InsertStands(base, cells, SortIds(base, ids[1..], leq), SortByName(ts[1..], leq), ids[0], ts[0], leq);
    }
  }

  lemma {:induction false} SortAllAt(cs: seq<Tree>, leq: NameOrder)
    ensures |SortAll(cs, leq)| == |cs|
    ensures forall k :: 0 <= k < |cs| ==> SortAll(cs, leq)[k] == SortTree(cs[k], leq)
  {
    if cs != [] {
      SortAllAt(cs[1..], leq);
    }
  }

  /** Once every list below is sorted, the tree is the sorted tree. */
  lemma {:induction false} SortedIsSortTree(base: seq<Cell>, cells: seq<Cell>, c: nat, leq: NameOrder)
    requires Ordered(base) && Ordered(cells) && Arranged(base, cells, leq) && c < |base|
      && SortedTo(base, cells, c, leq)
    ensures TreeOf(cells, c) == SortTree(TreeOf(base, c), leq)
    decreases |base| - c
  {
    var ids, ts := base[c].children, TreeOf(base, c).children;
    SortAllAt(ts, leq);
    SortedIds(base, ids, leq);
    forall k | 0 <= k < |ids| ensures Stands(base, cells, ids[k], SortAll(ts, leq)[k]) {
      assert ids[k] in cells[c].children;
      SortedIsSortTree(base, cells, ids[k], leq);
    }
    SortStands(base, cells, ids, SortAll(ts, leq), leq);
    assert TreeOf(cells, c).children == SortByName(SortAll(ts, leq), leq);
  }

  // ------------------------------------------------- what the sorted tree is

  predicate NamesInOrder(cs: seq<Tree>, leq: NameOrder) {
    forall i :: 0 < i < |cs| ==> leq(cs[i - 1].info.name, cs[i].info.name)
  }

  /** At every node the children stand in the order of their names. */
  predicate SiblingsInOrder(t: Tree, leq: NameOrder)
    decreases t
  {
    NamesInOrder(t.children, leq) && forall k :: 0 <= k < |t.children| ==> SiblingsInOrder(t.children[k], leq)
  }

  lemma {:induction false} InsertSortedInOrder(x: Tree, cs: seq<Tree>, leq: NameOrder)
    requires Comparable(leq) && NamesInOrder(cs, leq)
    ensures NamesInOrder(InsertSorted(x, cs, leq), leq)
    ensures multiset(InsertSorted(x, cs, leq)) == multiset(cs) + multiset{x}
  {
    if cs != [] {
      assert cs == [cs[0]] + cs[1..];
      if !leq(x.info.name, cs[0].info.name) {
        InsertSortedInOrder(x, cs[1..], leq);
      }
    }
  }

  lemma {:induction false} SortByNameInOrder(cs: seq<Tree>, leq: NameOrder)
    requires Comparable(leq)
    ensures NamesInOrder(SortByName(cs, leq), leq) && multiset(SortByName(cs, leq)) == multiset(cs)
  {
    if cs != [] {
      assert cs == [cs[0]] + cs[1..];
      SortByNameInOrder(cs[1..], leq);
      InsertSortedInOrder(cs[0], SortByName(cs[1..], leq), leq);
    }
  }

  /** The tree `sortTree` leaves is in order at every node. */
  lemma {:induction false} SortTreeInOrder(t: Tree, leq: NameOrder)
    requires Comparable(leq)
    ensures SiblingsInOrder(SortTree(t, leq), leq)
    decreases t
  {
    var all := SortAll(t.children, leq);
    SortAllAt(t.children, leq);
    SortByNameInOrder(all, leq);
    var sorted := SortTree(t, leq).children;
    forall k | 0 <= k < |sorted| ensures SiblingsInOrder(sorted[k], leq) {
      assert sorted[k] in multiset(all);
      var j :| 0 <= j < |all| && all[j] == sorted[k];
      SortTreeInOrder(t.children[j], leq);
    }
  }

  // ------------------------------------------------------------ sorting nodes

  function InsertNode(x: TreeNode, sorted: seq<TreeNode>, leq: NameOrder): seq<TreeNode> {
    if sorted == [] || leq(x.name, sorted[0].name) then [x] + sorted
    else [sorted[0]] + InsertNode(x, sorted[1..], leq)
  }

  /** `Array.prototype.sort`, which is stable. */
  function SortNodes(cs: seq<TreeNode>, leq: NameOrder): seq<TreeNode> {
    if cs == [] then [] else InsertNode(cs[0], SortNodes(cs[1..], leq), leq)
  }

  ghost function Ids(cs: seq<TreeNode>): (ids: seq<nat>)
    ensures |ids| == |cs|
  {
    seq(|cs|, k requires 0 <= k < |cs| => cs[k].id)
  }

  ghost predicate Named(cells: seq<Cell>, cs: seq<TreeNode>) {
    forall k :: 0 <= k < |cs| ==> NameOf(cells, cs[k].id) == cs[k].name
  }

  lemma {:induction false} InsertNodeIds(cells: seq<Cell>, x: TreeNode, cs: seq<TreeNode>, leq: NameOrder)
    requires Named(cells, cs) && NameOf(cells, x.id) == x.name
    ensures Ids(InsertNode(x, cs, leq)) == InsertId(cells, x.id, Ids(cs), leq)
    ensures var r := InsertNode(x, cs, leq); forall k :: 0 <= k < |r| ==> r[k] == x || r[k] in cs
  {
    if cs == [] || leq(x.name, cs[0].name) {
      assert Ids([x] + cs) == [x.id] + Ids(cs);
    } else {
      var rest := InsertNode(x, cs[1..], leq);
      InsertNodeIds(cells, x, cs[1..], leq);
      assert Ids(cs)[1..] == Ids(cs[1..]);
      assert Ids([cs[0]] + rest) == [cs[0].id] + Ids(rest);
      assert cs == [cs[0]] + cs[1..];
    }
  }

  lemma {:induction false} SortNodesIds(cells: seq<Cell>, cs: seq<TreeNode>, leq: NameOrder)
    requires Named(cells, cs)
    ensures Ids(SortNodes(cs, leq)) == SortIds(cells, Ids(cs), leq)
    ensures var r := SortNodes(cs, leq); forall k :: 0 <= k < |r| ==> r[k] in cs
  {
    if cs != [] {
      SortNodesIds(cells, cs[1..], leq);
      assert Ids(cs)[1..] == Ids(cs[1..]);
      var rest := SortNodes(cs[1..], leq);
      forall k | 0 <= k < |rest| ensures NameOf(cells, rest[k].id) == rest[k].name && rest[k] in cs {
        assert rest[k] in cs[1..];
      }
      InsertNodeIds(cells, cs[0], rest, leq);
    }
  }

  /** Which cells the nodes stand for once one list of children is sorted. */
  ghost function OneSorted(cells: seq<Cell>, base: seq<Cell>, r: nat, leq: NameOrder): seq<Cell>
    requires r < |cells|
  {
    cells[r := cells[r].(children := SortIds(base, cells[r].children, leq))]
  }

  lemma OneSortedArranged(base: seq<Cell>, cells: seq<Cell>, r: nat, leq: NameOrder)
    requires Comparable(leq) && Arranged(base, cells, leq) && r < |cells|
    ensures var after := OneSorted(cells, base, r, leq);
      Arranged(base, after, leq) && StaySorted(base, cells, after, leq) && after[r].children == SortedKids(base, r, leq)
  {
    SortTwice(base, base[r].children, leq);
  }

  lemma NodesNamed(base: seq<Cell>, nodes: seq<TreeNode>, node: TreeNode, leq: NameOrder)
    requires Store(nodes) && node in nodes && Arranged(base, Snap(nodes), leq)
    ensures Named(base, node.children)
  {
    assert nodes[node.id] == node;
    forall k | 0 <= k < |node.children| ensures NameOf(base, node.children[k].id) == node.children[k].name {
      var c := node.children[k];
      ChildAt(nodes, node.id, k);
      assert Snap(nodes)[c.id] == c.ToCell();
    }
  }

  /** `node.children.sort(..)`. */
  method SortChildren(node: TreeNode, leq: NameOrder, ghost nodes: seq<TreeNode>, ghost base: seq<Cell>)
    requires Store(nodes) && node in nodes && Comparable(leq)
    requires Ordered(base) && SingleParent(base) && Arranged(base, Snap(nodes), leq)
    modifies node`children
    ensures Store(nodes) && Snap(nodes) == OneSorted(old(Snap(nodes)), base, node.id, leq)
    ensures node.children == SortNodes(old(node.children), leq)
  {
    ghost var cells := Snap(nodes);
    ghost var after := OneSorted(cells, base, node.id, leq);
    assert nodes[node.id] == node;
    NodesNamed(base, nodes, node, leq);
    SortNodesIds(base, node.children, leq);
    assert Ids(node.children) == cells[node.id].children;
    OneSortedArranged(base, cells, node.id, leq);
    ArrangedOrdered(base, after, leq);
    node.children := SortNodes(node.children, leq);
    forall i | 0 <= i < |nodes| ensures Snap(nodes)[i] == after[i] {
      if i != node.id {
        assert nodes[i] != node;
        assert nodes[i].ToCell() == cells[i];
      } else {
        assert node.ToCell().children == Ids(node.children);
      }
    }
    assert Snap(nodes) == after;
    forall i, k | 0 <= i < |nodes| && 0 <= k < |nodes[i].children| ensures nodes[i].children[k] in nodes {
      if i == node.id {
        assert nodes[i].children[k] in old(node.children);
      }
    }
  }

  /** The first `k` lists of positions are sorted all the way down. */
  predicate FirstSorted(base: seq<Cell>, cells: seq<Cell>, ids: seq<nat>, k: nat, leq: NameOrder)
    requires Ordered(cells) && |cells| == |base| && k <= |ids|
  {
    forall j :: 0 <= j < k ==> ids[j] < |base| && SortedTo(base, cells, ids[j], leq)
  }

  lemma FirstStays(base: seq<Cell>, a: seq<Cell>, b: seq<Cell>, ids: seq<nat>, k: nat, leq: NameOrder)
    requires Ordered(a) && Ordered(b) && StaySorted(base, a, b, leq) && k < |ids| && FirstSorted(base, a, ids, k, leq)
    requires ids[k] < |base| && SortedTo(base, b, ids[k], leq)
    ensures FirstSorted(base, b, ids, k + 1, leq)
  {
    forall j | 0 <= j < k ensures SortedTo(base, b, ids[j], leq) {
      SortedStays(base, a, b, ids[j], leq);
    }
  }

  lemma AllSorted(base: seq<Cell>, cells: seq<Cell>, r: nat, leq: NameOrder)
    requires Ordered(cells) && |cells| == |base| && r < |base| && cells[r].children == SortedKids(base, r, leq)
    requires FirstSorted(base, cells, SortedKids(base, r, leq), |SortedKids(base, r, leq)|, leq)
    ensures SortedTo(base, cells, r, leq)
  {
  }

  lemma StaySortedOn(base: seq<Cell>, a: seq<Cell>, b: seq<Cell>, c: seq<Cell>, leq: NameOrder)
    requires StaySorted(base, a, b, leq) && StaySorted(base, b, c, leq)
    ensures StaySorted(base, a, c, leq)
  {
    hide SortedKids;
  }

  lemma NothingSorted(base: seq<Cell>, cells: seq<Cell>, leq: NameOrder)
    requires |cells| == |base|
    ensures Arranged(base, base, leq) && StaySorted(base, cells, cells, leq)
  {
  }

  lemma NoneYet(base: seq<Cell>, cells: seq<Cell>, ids: seq<nat>, leq: NameOrder)
    requires Ordered(cells) && |cells| == |base|
    ensures FirstSorted(base, cells, ids, 0, leq)
  {
  }

  lemma StoreIs(nodes: seq<TreeNode>, node: TreeNode)
    requires Store(nodes) && node in nodes
    ensures Ordered(Snap(nodes)) && node.id < |nodes| && |Snap(nodes)[node.id].children| == |node.children|
    ensures forall k :: 0 <= k < |node.children| ==>
      var c := node.children[k]; c in nodes && node.id < c.id < |nodes| && c.id == Snap(nodes)[node.id].children[k]
  {
    assert nodes[node.id] == node;
    forall k | 0 <= k < |node.children|
      ensures var c := node.children[k];
        c in nodes && node.id < c.id < |nodes| && c.id == Snap(nodes)[node.id].children[k]
    {
      ChildAt(nodes, node.id, k);
    }
  }

  lemma ArrangedSize(base: seq<Cell>, cells: seq<Cell>, leq: NameOrder)
    requires Arranged(base, cells, leq)
    ensures |cells| == |base|
  {
  }

  lemma StillSorted(base: seq<Cell>, a: seq<Cell>, b: seq<Cell>, r: nat, leq: NameOrder)
    requires StaySorted(base, a, b, leq) && r < |base| && a[r].children == SortedKids(base, r, leq)
    ensures |a| == |b| == |base| && b[r].children == SortedKids(base, r, leq)
  {
  }

  /** `sortTree`: one list sorted, then every subtree in its new order. */
  method SortBelow(node: TreeNode, leq: NameOrder, ghost nodes: seq<TreeNode>, ghost base: seq<Cell>)
    requires Store(nodes) && node in nodes && Comparable(leq)
    requires Ordered(base) && SingleParent(base) && Arranged(base, Snap(nodes), leq)
    modifies nodes`children
    ensures Store(nodes) && Arranged(base, Snap(nodes), leq) && StaySorted(base, old(Snap(nodes)), Snap(nodes), leq)
    ensures Ordered(Snap(nodes)) && node.id < |base| == |nodes| && SortedTo(base, Snap(nodes), node.id, leq)
    decreases |nodes| - node.id
  {
    hide *;
    ghost var start := Snap(nodes);
    StoreIs(nodes, node);
    ArrangedSize(base, start, leq);
    OneSortedArranged(base, start, node.id, leq);
    SortChildren(node, leq, nodes, base);
    StoreIs(nodes, node);
    var children := node.children;
    ghost var ids := SortedKids(base, node.id, leq);
    NoneYet(base, Snap(nodes), ids, leq);
    for k := 0 to |children|
      invariant Store(nodes) && Arranged(base, Snap(nodes), leq) && StaySorted(base, start, Snap(nodes), leq)
      invariant Ordered(Snap(nodes)) && Snap(nodes)[node.id].children == ids && |ids| == |children|
      invariant FirstSorted(base, Snap(nodes), ids, k, leq)
    {
      ghost var before := Snap(nodes);
      SortBelow(children[k], leq, nodes, base);
      StillSorted(base, before, Snap(nodes), node.id, leq);
      StaySortedOn(base, start, before, Snap(nodes), leq);
      FirstStays(base, before, Snap(nodes), ids, k, leq);
    }
    AllSorted(base, Snap(nodes), node.id, leq);
  }

  lemma SortedModel(nodes: seq<TreeNode>, root: TreeNode, base: seq<Cell>, leq: NameOrder)
    requires Store(nodes) && root in nodes && Ordered(base) && Arranged(base, Snap(nodes), leq) && root.id < |base|
    requires SortedTo(base, Snap(nodes), root.id, leq)
    ensures Model(nodes, root) == SortTree(TreeOf(base, root.id), leq)
  {
    SortedIsSortTree(base, Snap(nodes), root.id, leq);
  }

  lemma StoreShape(nodes: seq<TreeNode>, root: TreeNode)
    requires Store(nodes) && root in nodes
    ensures Ordered(Snap(nodes)) && SingleParent(Snap(nodes)) && root.id < |nodes|
    ensures Model(nodes, root) == TreeOf(Snap(nodes), root.id)
  {
  }

  /** `sortTree` on a whole tree: the nodes stand for the sorted tree. */
  method SortTreeNodes(root: TreeNode, leq: NameOrder, ghost nodes: seq<TreeNode>)
    requires Store(nodes) && root in nodes && Comparable(leq)
    modifies nodes`children
    ensures Store(nodes) && Model(nodes, root) == SortTree(old(Model(nodes, root)), leq)
  {
    hide *;
    StoreShape(nodes, root);
    ghost var base := Snap(nodes);
    NothingSorted(base, base, leq);
    SortBelow(root, leq, nodes, base);
    SortedModel(nodes, root, base, leq);
  }
}
