/** The mutable tree of src/lib/tree.ts: nodes that are extended, promoted and counted in place. */
module TreeNodes {
  import opened Optional
  import opened Tree
  import opened TreeShape

  // ------------------------------------------------- the heap as a list of cells

  /** One node, its children named by position. Nodes are listed in creation order, so children come later. */
  datatype Cell = Cell(info: Info, children: seq<nat>, itemCount: nat)

  predicate Ordered(cells: seq<Cell>) {
    forall i, k :: 0 <= i < |cells| && 0 <= k < |cells[i].children| ==> i < cells[i].children[k] < |cells|
  }

  predicate SingleParent(cells: seq<Cell>) {
    forall i, k, j, l | 0 <= i < |cells| && 0 <= k < |cells[i].children| && 0 <= j < |cells|
      && 0 <= l < |cells[j].children| ::
      cells[i].children[k] == cells[j].children[l] ==> i == j && k == l
  }

  function TreeOf(cells: seq<Cell>, r: nat): (t: Tree)
    requires Ordered(cells) && r < |cells|
    ensures |t.children| == |cells[r].children| && t.info == cells[r].info && t.itemCount == cells[r].itemCount
    ensures forall k :: 0 <= k < |t.children| ==> t.children[k].info == cells[cells[r].children[k]].info
    decreases |cells| - r
  {
    var ids := cells[r].children;
    Node(cells[r].info, seq(|ids|, k requires 0 <= k < |ids| => TreeOf(cells, ids[k])), cells[r].itemCount)
  }

  /** The tree of `r` with `t` in place of the node `target`. */
  function Graft(cells: seq<Cell>, r: nat, target: nat, t: Tree): (g: Tree)
    requires Ordered(cells) && r < |cells|
    ensures r != target ==> |g.children| == |cells[r].children|
    decreases |cells| - r
  {
    if r == target then t
    else
      var ids := cells[r].children;
      Node(cells[r].info, seq(|ids|, k requires 0 <= k < |ids| => Graft(cells, ids[k], target, t)), cells[r].itemCount)
  }

  lemma {:induction false} GraftSelf(cells: seq<Cell>, r: nat, target: nat)
    requires Ordered(cells) && r < |cells| && target < |cells|
    ensures Graft(cells, r, target, TreeOf(cells, target)) == TreeOf(cells, r)
    decreases |cells| - r
  {
    if r != target {
      var ids := cells[r].children;
      forall k | 0 <= k < |ids| ensures Graft(cells, ids[k], target, TreeOf(cells, target)) == TreeOf(cells, ids[k]) {
        GraftSelf(cells, ids[k], target);
      }
      assert Graft(cells, r, target, TreeOf(cells, target)).children == TreeOf(cells, r).children;
    }
  }

  /** `parent` is the only node with `c` among its children. */
  predicate OnlyParent(cells: seq<Cell>, parent: nat, c: nat) {
    forall i, k :: 0 <= i < |cells| && 0 <= k < |cells[i].children| && cells[i].children[k] == c ==> i == parent
  }

  /** Below a later node there is no earlier one: grafting there changes nothing, however the earlier nodes differ. */
  lemma {:induction false} GraftLater(old': seq<Cell>, cells: seq<Cell>, r: nat, parent: nat, c: nat, t: Tree)
    requires Ordered(old') && Ordered(cells) && |old'| <= |cells| && parent < r < |old'| && r != c
    requires forall i :: parent < i < |old'| && i != c ==> cells[i] == old'[i]
    requires OnlyParent(cells, parent, c)
    ensures Graft(cells, r, c, t) == TreeOf(old', r)
    decreases |old'| - r
  {
    var ids := old'[r].children;
    forall k | 0 <= k < |ids| ensures Graft(cells, ids[k], c, t) == TreeOf(old', ids[k]) {
      GraftLater(old', cells, ids[k], parent, c, t);
    }
    assert Graft(cells, r, c, t).children == TreeOf(old', r).children;
  }

  lemma {:induction false} GraftAtLater(cells: seq<Cell>, r: nat, target: nat, t: Tree)
    requires Ordered(cells) && target < r < |cells|
    ensures Graft(cells, r, target, t) == TreeOf(cells, r)
    decreases |cells| - r
  {
    var ids := cells[r].children;
    forall k | 0 <= k < |ids| ensures Graft(cells, ids[k], target, t) == TreeOf(cells, ids[k]) {
      GraftAtLater(cells, ids[k], target, t);
    }
    assert Graft(cells, r, target, t).children == TreeOf(cells, r).children;
  }

  /** Descending: replacing child `k` of `cur` is replacing that child's node. */
  lemma {:induction false} GraftChild(cells: seq<Cell>, r: nat, cur: nat, k: nat, t: Tree)
    requires Ordered(cells) && SingleParent(cells) && cur < |cells| && k < |cells[cur].children|
    requires r < |cells| && r != cells[cur].children[k]
    ensures var here := TreeOf(cells, cur);
            Graft(cells, r, cur, here.(children := here.children[k := t])) == Graft(cells, r, cells[cur].children[k], t)
    decreases |cells| - r
  {
    var here, c, ids := TreeOf(cells, cur), cells[cur].children[k], cells[r].children;
    var here' := here.(children := here.children[k := t]);
    if r > cur {
      GraftAtLater(cells, r, cur, here');
      GraftLater(cells, cells, r, cur, c, t);
    } else if r == cur {
      forall j | 0 <= j < |ids| ensures Graft(cells, ids[j], c, t) == here'.children[j] {
        if j != k {
          GraftLater(cells, cells, ids[j], cur, c, t);
        }
      }
      assert here'.children == Graft(cells, r, c, t).children;
    } else {
      forall j | 0 <= j < |ids| ensures Graft(cells, ids[j], cur, here') == Graft(cells, ids[j], c, t) {
        GraftChild(cells, ids[j], cur, k, t);
      }
      assert Graft(cells, r, cur, here').children == Graft(cells, r, c, t).children;
    }
  }

  /** `children.push`: the new node goes last in the list and last under `cur`. */
  function Pushed(cells: seq<Cell>, cur: nat, c: Cell): (cells': seq<Cell>)
    requires cur < |cells|
    ensures |cells'| == |cells| + 1
  {
    cells[cur := cells[cur].(children := cells[cur].children + [|cells|])] + [c]
  }

  lemma PushedWf(cells: seq<Cell>, cur: nat, c: Cell)
    requires Ordered(cells) && SingleParent(cells) && cur < |cells| && c.children == []
    ensures Ordered(Pushed(cells, cur, c)) && SingleParent(Pushed(cells, cur, c))
    ensures OnlyParent(Pushed(cells, cur, c), cur, |cells|)
  {
    var cells' := Pushed(cells, cur, c);
    forall i, k | 0 <= i < |cells'| && 0 <= k < |cells'[i].children|
      ensures i < cells'[i].children[k] < |cells'|
      ensures cells'[i].children[k] == |cells|
        || (i < |cells| && k < |cells[i].children| && cells'[i].children[k] == cells[i].children[k])
      ensures cells'[i].children[k] == |cells| ==> i == cur && k == |cells[cur].children|
    {
    }
  }

  lemma {:induction false} GraftPushed(cells: seq<Cell>, r: nat, cur: nat, c: Cell, t: Tree)
    requires Ordered(cells) && SingleParent(cells) && cur < |cells| && r < |cells| && c.children == []
    requires Ordered(Pushed(cells, cur, c))
    ensures var here := TreeOf(cells, cur);
            Graft(cells, r, cur, here.(children := here.children + [t])) == Graft(Pushed(cells, cur, c), r, |cells|, t)
    decreases |cells| - r
  {
    PushedWf(cells, cur, c);
    var cells', here, n, ids := Pushed(cells, cur, c), TreeOf(cells, cur), |cells|, cells[r].children;
    var here' := here.(children := here.children + [t]);
    if r > cur {
      GraftAtLater(cells, r, cur, here');
      GraftLater(cells, cells', r, cur, n, t);
    } else if r == cur {
      forall j | 0 <= j < |ids| ensures Graft(cells', ids[j], n, t) == TreeOf(cells, ids[j]) {
        GraftLater(cells, cells', ids[j], cur, n, t);
      }
      assert here'.children == Graft(cells', r, n, t).children;
    } else {
      forall j | 0 <= j < |ids| ensures Graft(cells, ids[j], cur, here') == Graft(cells', ids[j], n, t) {
        GraftPushed(cells, ids[j], cur, c, t);
      }
      assert Graft(cells, r, cur, here').children == Graft(cells', r, n, t).children;
    }
  }

  /** Overwriting one node's fields grafts the node with those fields. */
  lemma {:induction false} GraftInfo(cells: seq<Cell>, r: nat, c: nat, info: Info)
    requires Ordered(cells) && r < |cells| && c < |cells| && Ordered(cells[c := cells[c].(info := info)])
    ensures TreeOf(cells[c := cells[c].(info := info)], r) == Graft(cells, r, c, TreeOf(cells, c).(info := info))
    decreases |cells| - r
  {
    var cells', t, ids := cells[c := cells[c].(info := info)], TreeOf(cells, c).(info := info), cells[r].children;
    forall j | 0 <= j < |ids|
      ensures r == c ==> TreeOf(cells', ids[j]) == TreeOf(cells, ids[j])
      ensures r != c ==> TreeOf(cells', ids[j]) == Graft(cells, ids[j], c, t)
    {
      GraftInfo(cells, ids[j], c, info);
      if r == c {
        GraftAtLater(cells, ids[j], c, t);
      }
    }
    assert TreeOf(cells', r).children == Graft(cells, r, c, t).children;
  }

  // ------------------------------------------------------------------ the nodes

  class TreeNode {
    ghost const id: nat
    const key: string
    const name: string
    const kind: Kind
    const organizationId: Option<string>
    var folderId: Option<string>
    var collectionId: Option<string>
    var children: seq<TreeNode>
    var itemCount: nat

    constructor (ghost id: nat, info: Info, itemCount: nat)
      ensures this.id == id && children == [] && this.itemCount == itemCount
      ensures key == info.key && name == info.name && kind == info.kind && organizationId == info.organizationId
      ensures folderId == info.folderId && collectionId == info.collectionId
    {
      this.id, key, name, kind, organizationId := id, info.key, info.name, info.kind, info.organizationId;
      folderId, collectionId, children, this.itemCount := info.folderId, info.collectionId, [], itemCount;
    }

    function Fields(): Info
      reads this
    {
      Info(key, name, kind, folderId, organizationId, collectionId)
    }

    ghost function ToCell(): Cell
      reads this
    {
      Cell(Fields(), seq(|children|, k requires 0 <= k < |children| reads this => children[k].id), itemCount)
    }
  }

  ghost function Snap(nodes: seq<TreeNode>): (cells: seq<Cell>)
    reads nodes
    ensures |cells| == |nodes|
  {
    seq(|nodes|, i requires 0 <= i < |nodes| reads nodes => nodes[i].ToCell())
  }

  /** `nodes` lists every node reachable from them, each at the position its ghost id says. */
  ghost predicate Store(nodes: seq<TreeNode>)
    reads nodes
  {
    && (forall i :: 0 <= i < |nodes| ==> nodes[i].id == i)
    && (forall i, k :: 0 <= i < |nodes| && 0 <= k < |nodes[i].children| ==> nodes[i].children[k] in nodes)
    && Ordered(Snap(nodes)) && SingleParent(Snap(nodes))
  }

  ghost function Model(nodes: seq<TreeNode>, node: TreeNode): Tree
    requires Store(nodes) && node in nodes
    reads nodes
  {
    TreeOf(Snap(nodes), node.id)
  }

  lemma ChildAt(nodes: seq<TreeNode>, i: nat, k: nat)
    requires Store(nodes) && i < |nodes| && k < |nodes[i].children|
    ensures var c := nodes[i].children[k]; i < c.id < |nodes| && nodes[c.id] == c && Snap(nodes)[i].children[k] == c.id
  {
    assert Snap(nodes)[i].children[k] == nodes[i].children[k].id;
    var c := nodes[i].children[k];
    var j :| 0 <= j < |nodes| && nodes[j] == c;
  }

  /** `children.find(..)`. */
  method Find(node: TreeNode, name: string, synthetic: bool, ghost nodes: seq<TreeNode>) returns (k: nat)
    requires Store(nodes) && node in nodes
    ensures k <= |node.children| && k == First(Model(nodes, node).children, name, synthetic)
  {
    ghost var t := Model(nodes, node);
    assert nodes[node.id] == node;
    k := 0;
    while k < |node.children|
      invariant k <= |node.children| == |t.children|
      invariant forall i :: 0 <= i < k ==> !Matches(t.children[i], name, synthetic)
    {
      var c := node.children[k];
      ChildAt(nodes, node.id, k);
      assert t.children[k].info == c.Fields();
      if c.name == name && (synthetic ==> c.folderId.None? && c.collectionId.None?) {
        break;
      }
      k := k + 1;
    }
    FirstIs(t.children, name, synthetic, k);
  }

  /** `current.children.push(new node)`. */
  method Push(
    current: TreeNode, info: Info, ghost nodes: seq<TreeNode>)
    returns (child: TreeNode, ghost nodes': seq<TreeNode>)
    requires Store(nodes) && current in nodes
    modifies current`children
    ensures fresh(child) && nodes' == nodes + [child] && child.id == |nodes|
    ensures Store(nodes') && Snap(nodes') == Pushed(old(Snap(nodes)), current.id, Cell(info, [], 0))
  {
    ghost var cells := Snap(nodes);
    assert nodes[current.id] == current;
    child := new TreeNode(|nodes|, info, 0);
    current.children := current.children + [child];
    nodes' := nodes + [child];
    PushedWf(cells, current.id, Cell(info, [], 0));
    forall i | 0 <= i < |nodes'| ensures Snap(nodes')[i] == Pushed(cells, current.id, Cell(info, [], 0))[i] {
      if i < |nodes| && i != current.id {
        assert nodes[i] != current;
        assert nodes[i].ToCell() == cells[i];
      }
    }
    assert Snap(nodes') == Pushed(cells, current.id, Cell(info, [], 0));
    forall i, k | 0 <= i < |nodes'| && 0 <= k < |nodes'[i].children| ensures nodes'[i].children[k] in nodes' {
    }
  }

  method PromoteNode(node: TreeNode, leaf: Leaf, ghost nodes: seq<TreeNode>)
    requires Store(nodes) && node in nodes
    modifies node`folderId, node`collectionId
    ensures Store(nodes)
    ensures Snap(nodes) == old(Snap(nodes))[node.id := old(node.ToCell()).(info := Promote(old(node.Fields()), leaf))]
  {
    ghost var cells := Snap(nodes);
    assert nodes[node.id] == node;
    hide Truthy, SingleParent;
    if Truthy(leaf.folderId) {
      node.folderId := leaf.folderId;
    }
    if Truthy(leaf.collectionId) {
      node.collectionId := leaf.collectionId;
    }
    ghost var cells' := cells[node.id := cells[node.id].(info := Promote(cells[node.id].info, leaf))];
    forall i | 0 <= i < |nodes| ensures Snap(nodes)[i] == cells'[i] {
      if i != node.id {
        assert nodes[i] != node;
        assert nodes[i].ToCell() == cells[i];
      }
    }
    assert Snap(nodes) == cells';
  }

  /** The whole tree once the rest of the path has been inserted below `node`. */
  ghost function Pending(nodes: seq<TreeNode>, node: TreeNode, rest: seq<string>, leaf: Leaf, acc: string): Tree
    requires Store(nodes) && node in nodes
    reads nodes
  {
    Graft(Snap(nodes), 0, node.id, InsertIntoTree(Model(nodes, node), rest, leaf, acc))
  }

  /** An internal segment: the first child of that name, created without an id when there is none. */
  method EnterChild(
    current: TreeNode, seg: string, ghost rest: seq<string>, leaf: Leaf, acc: string, ghost nodes: seq<TreeNode>)
    returns (child: TreeNode, ghost nodes': seq<TreeNode>)
    requires Store(nodes) && current in nodes && rest != []
    modifies current`children
    ensures nodes <= nodes' && forall k :: |nodes| <= k < |nodes'| ==> fresh(nodes'[k])
    ensures Store(nodes')
    ensures child in nodes' && Pending(nodes', child, rest, leaf, acc + "/" + seg)
      == old(Pending(nodes, current, [seg] + rest, leaf, acc))
  {
    var key := acc + "/" + seg;
    ghost var cells := Snap(nodes);
    ghost var here := Model(nodes, current);
    assert nodes[current.id] == current;
    assert ([seg] + rest)[1..] == rest;
    var k := Find(current, seg, false, nodes);
    if k < |current.children| {
      child, nodes' := current.children[k], nodes;
      ChildAt(nodes, current.id, k);
      GraftChild(cells, 0, current.id, k, InsertIntoTree(Model(nodes, child), rest, leaf, key));
    } else {
      ghost var info := SyntheticInfo(key, seg, leaf);
      child, nodes' := Push(current, SyntheticInfo(key, seg, leaf), nodes);
      assert Model(nodes', child) == Node(info, [], 0);
      GraftPushed(cells, 0, current.id, Cell(info, [], 0), InsertIntoTree(Node(info, [], 0), rest, leaf, key));
    }
  }

  lemma LeafPromoted(cells: seq<Cell>, cur: nat, seg: string, leaf: Leaf, acc: string, cells': seq<Cell>)
    requires Ordered(cells) && SingleParent(cells) && cur < |cells| && Ordered(cells')
    requires var k := First(TreeOf(cells, cur).children, seg, true);
      k < |cells[cur].children|
      && var c := cells[cur].children[k]; cells' == cells[c := cells[c].(info := Promote(cells[c].info, leaf))]
    ensures TreeOf(cells', 0) == Graft(cells, 0, cur, InsertIntoTree(TreeOf(cells, cur), [seg], leaf, acc))
  {
    var k := First(TreeOf(cells, cur).children, seg, true);
    var c := cells[cur].children[k];
    var t := TreeOf(cells, c);
    GraftChild(cells, 0, cur, k, t.(info := Promote(t.info, leaf)));
    GraftInfo(cells, 0, c, Promote(t.info, leaf));
  }

  lemma LeafAdded(cells: seq<Cell>, cur: nat, seg: string, leaf: Leaf, acc: string, info: Info)
    requires Ordered(cells) && SingleParent(cells) && cur < |cells|
    requires var cs := TreeOf(cells, cur).children;
      First(cs, seg, true) == |cs| && info == LeafInfo(acc + "/" + seg, seg, leaf, First(cs, seg, false) < |cs|)
    ensures var cells' := Pushed(cells, cur, Cell(info, [], 0));
      Ordered(cells') && TreeOf(cells', 0) == Graft(cells, 0, cur, InsertIntoTree(TreeOf(cells, cur), [seg], leaf, acc))
  {
    var cells' := Pushed(cells, cur, Cell(info, [], 0));
    PushedWf(cells, cur, Cell(info, [], 0));
    GraftPushed(cells, 0, cur, Cell(info, [], 0), Node(info, [], 0));
    GraftSelf(cells', 0, |cells|);
  }

  lemma StoreCells(nodes: seq<TreeNode>, node: TreeNode)
    requires Store(nodes) && node in nodes
    ensures Ordered(Snap(nodes)) && SingleParent(Snap(nodes)) && node.id < |nodes| && nodes[node.id] == node
    ensures Snap(nodes)[node.id] == node.ToCell() && node.ToCell().info == node.Fields()
    ensures |Snap(nodes)[node.id].children| == |node.children|
    ensures Model(nodes, node) == TreeOf(Snap(nodes), node.id)
  {
  }

  lemma PendingIs(nodes: seq<TreeNode>, node: TreeNode, rest: seq<string>, leaf: Leaf, acc: string)
    requires Store(nodes) && node in nodes
    ensures node.id < |nodes| && Ordered(Snap(nodes))
    ensures Pending(nodes, node, rest, leaf, acc)
      == Graft(Snap(nodes), 0, node.id, InsertIntoTree(TreeOf(Snap(nodes), node.id), rest, leaf, acc))
  {
  }

  lemma PendingNone(nodes: seq<TreeNode>, node: TreeNode, leaf: Leaf, acc: string)
    requires Store(nodes) && node in nodes
    ensures node.id < |nodes| && Ordered(Snap(nodes)) && Pending(nodes, node, [], leaf, acc) == TreeOf(Snap(nodes), 0)
  {
    GraftSelf(Snap(nodes), 0, node.id);
  }

  /** The last segment: promote the synthetic child of that name, or add a node, keyed by its id on a collision. */
  method PlaceLeaf(current: TreeNode, seg: string, leaf: Leaf, acc: string, ghost nodes: seq<TreeNode>)
    returns (ghost nodes': seq<TreeNode>)
    requires Store(nodes) && current in nodes
    modifies nodes
    ensures nodes <= nodes' && forall k :: |nodes| <= k < |nodes'| ==> fresh(nodes'[k])
    ensures Store(nodes')
    ensures Pending(nodes', current, [], leaf, acc + "/" + seg) == old(Pending(nodes, current, [seg], leaf, acc))
  {
    hide *;
    var key := acc + "/" + seg;
    ghost var cells := Snap(nodes);
    StoreCells(nodes, current);
    PendingIs(nodes, current, [seg], leaf, acc);
    var k := Find(current, seg, true, nodes);
    if k < |current.children| {
      ChildAt(nodes, current.id, k);
      var c := current.children[k];
      StoreCells(nodes, c);
      PromoteNode(c, leaf, nodes);
      nodes' := nodes;
      StoreCells(nodes, c);
      LeafPromoted(cells, current.id, seg, leaf, acc, Snap(nodes));
    } else {
      var first := Find(current, seg, false, nodes);
      var info := LeafInfo(key, seg, leaf, first < |current.children|);
      var child;
      child, nodes' := Push(current, info, nodes);
      LeafAdded(cells, current.id, seg, leaf, acc, info);
    }
    PendingNone(nodes', current, leaf, key);
  }

  /** What is left of the path from segment `i` on. */
  function From(segments: seq<string>, i: nat): seq<string>
    requires i <= |segments|
  {
    segments[i..]
  }

  lemma FromNext(segments: seq<string>, i: nat)
    requires i < |segments|
    ensures From(segments, i) == [segments[i]] + From(segments, i + 1)
    ensures From(segments, i + 1) == [] <==> i == |segments| - 1
  {
  }

  lemma PendingStart(nodes: seq<TreeNode>, root: TreeNode, segments: seq<string>, leaf: Leaf)
    requires Store(nodes) && root in nodes && root.id == 0
    ensures Pending(nodes, root, From(segments, 0), leaf, root.key)
      == InsertIntoTree(Model(nodes, root), segments, leaf, root.key)
  {
  }

  lemma PendingEnd(
    nodes: seq<TreeNode>, root: TreeNode, current: TreeNode, segments: seq<string>, leaf: Leaf, acc: string)
    requires Store(nodes) && root in nodes && root.id == 0 && current in nodes
    ensures Pending(nodes, current, From(segments, |segments|), leaf, acc) == Model(nodes, root)
  {
    GraftSelf(Snap(nodes), 0, current.id);
  }

  lemma StillThere(nodes: seq<TreeNode>, nodes': seq<TreeNode>, root: TreeNode)
    requires nodes <= nodes' && root in nodes
    ensures root in nodes'
  {
  }

  /** The source's walk, in place: it equals the recursive insertion on the tree the nodes stand for. */
  method InsertPath(
    root: TreeNode, segments: seq<string>, leaf: Leaf, ghost nodes: seq<TreeNode>)
    returns (ghost nodes': seq<TreeNode>)
    requires Store(nodes) && root in nodes && root.id == 0
    modifies nodes
    ensures nodes <= nodes' && forall k :: |nodes| <= k < |nodes'| ==> fresh(nodes'[k])
    ensures Store(nodes') && Model(nodes', root) == InsertIntoTree(old(Model(nodes, root)), segments, leaf, root.key)
  {
    hide InsertIntoTree, Graft, TreeOf, Ordered, SingleParent, Store, Model, Pending, From;
    var current, acc := root, root.key;
    nodes' := nodes;
    ghost var goal := InsertIntoTree(Model(nodes, root), segments, leaf, root.key);
    PendingStart(nodes, root, segments, leaf);
    for i := 0 to |segments|
      invariant nodes <= nodes' && forall k :: |nodes| <= k < |nodes'| ==> fresh(nodes'[k])
      invariant Store(nodes') && current in nodes'
      invariant Pending(nodes', current, From(segments, i), leaf, acc) == goal
    {
      var seg := segments[i];
      FromNext(segments, i);
      if i < |segments| - 1 {
        current, nodes' := EnterChild(current, seg, From(segments, i + 1), leaf, acc, nodes');
      } else {
        assert [seg] + [] == [seg];
        ghost var before := nodes';
        nodes' := PlaceLeaf(current, seg, leaf, acc, nodes');
        StillThere(before, nodes', current);
      }
      acc := acc + "/" + seg;
    }
    StillThere(nodes, nodes', root);
    PendingEnd(nodes', root, current, segments, leaf, acc);
  }

  // ------------------------------------------------------- counting in place

  /** The count the source leaves at node `i`, given the tree before counting. */
  function RightCount(base: seq<Cell>, i: nat, which: Which, tally: map<string, nat>): nat
    requires Ordered(base) && i < |base|
  {
    WithCounts(TreeOf(base, i), which, tally).itemCount
  }

  /** Only counts differ from `before`, and every count that differs is right. */
  predicate Written(base: seq<Cell>, before: seq<Cell>, cells: seq<Cell>, which: Which, tally: map<string, nat>)
    requires Ordered(base)
  {
    && |before| == |cells| == |base|
    && forall i :: 0 <= i < |base| ==>
      && cells[i].info == base[i].info && cells[i].children == base[i].children
      && (cells[i].itemCount == before[i].itemCount || cells[i].itemCount == RightCount(base, i, which, tally))
  }

  lemma WithCountsChildren(cs: seq<Tree>, which: Which, tally: map<string, nat>)
    ensures |WithCountsAll(cs, which, tally)| == |cs|
    ensures forall k :: 0 <= k < |cs| ==> WithCountsAll(cs, which, tally)[k] == WithCounts(cs[k], which, tally)
  {
  }

  /** Further right counts leave a subtree that is already counted as it is. */
  lemma {:induction false} CountedStays(
    base: seq<Cell>, a: seq<Cell>, b: seq<Cell>, c: nat, which: Which, tally: map<string, nat>)
    requires Ordered(base) && Ordered(a) && Ordered(b) && |a| == |base| && c < |base|
    requires Written(base, base, a, which, tally) && Written(base, a, b, which, tally)
    requires TreeOf(a, c) == WithCounts(TreeOf(base, c), which, tally)
    ensures TreeOf(b, c) == WithCounts(TreeOf(base, c), which, tally)
    decreases |base| - c
  {
    var ids := base[c].children;
    WithCountsChildren(TreeOf(base, c).children, which, tally);
    assert TreeOf(a, c).itemCount == RightCount(base, c, which, tally);
    forall k | 0 <= k < |ids| ensures TreeOf(b, ids[k]) == WithCounts(TreeOf(base, ids[k]), which, tally) {
      assert TreeOf(a, c).children[k] == TreeOf(a, ids[k]);
      CountedStays(base, a, b, ids[k], which, tally);
    }
    assert TreeOf(b, c).children == WithCounts(TreeOf(base, c), which, tally).children;
  }

  lemma {:induction false} TotalAppend(cs: seq<Tree>, c: Tree, which: Which, tally: map<string, nat>)
    ensures TotalAll(cs + [c], which, tally) == TotalAll(cs, which, tally) + Total(c, which, tally)
  {
    if cs == [] {
      assert ([] + [c])[1..] == [];
    } else {
      TotalAppend(cs[1..], c, which, tally);
      assert (cs + [c])[1..] == cs[1..] + [c];
    }
  }

  method SetCount(node: TreeNode, total: nat, ghost nodes: seq<TreeNode>)
    requires Store(nodes) && node in nodes
    modifies node`itemCount
    ensures Store(nodes) && Snap(nodes) == old(Snap(nodes))[node.id := old(node.ToCell()).(itemCount := total)]
  {
    ghost var cells := Snap(nodes);
    assert nodes[node.id] == node;
    node.itemCount := total;
    forall i | 0 <= i < |nodes| ensures Snap(nodes)[i] == cells[node.id := cells[node.id].(itemCount := total)][i] {
      if i != node.id {
        assert nodes[i] != node;
        assert nodes[i].ToCell() == cells[i];
      }
    }
    assert Snap(nodes) == cells[node.id := cells[node.id].(itemCount := total)];
  }

  /** The first `k` subtrees below `r` are counted. */
  predicate Done(base: seq<Cell>, cells: seq<Cell>, r: nat, k: nat, which: Which, tally: map<string, nat>)
    requires Ordered(base) && Ordered(cells) && |cells| == |base| && r < |base| && k <= |base[r].children|
  {
    forall j :: 0 <= j < k ==>
      TreeOf(cells, base[r].children[j]) == WithCounts(TreeOf(base, base[r].children[j]), which, tally)
  }

  lemma DoneStays(base: seq<Cell>, a: seq<Cell>, b: seq<Cell>, r: nat, k: nat, which: Which, tally: map<string, nat>)
    requires Ordered(base) && Ordered(a) && Ordered(b) && |a| == |base| && r < |base| && k <= |base[r].children|
    requires Written(base, base, a, which, tally) && Written(base, a, b, which, tally)
    requires Done(base, a, r, k, which, tally)
    ensures Done(base, b, r, k, which, tally) && Written(base, base, b, which, tally)
  {
    forall j | 0 <= j < k
      ensures TreeOf(b, base[r].children[j]) == WithCounts(TreeOf(base, base[r].children[j]), which, tally)
    {
      CountedStays(base, a, b, base[r].children[j], which, tally);
    }
  }

  lemma AllCounted(base: seq<Cell>, cells: seq<Cell>, r: nat, which: Which, tally: map<string, nat>)
    requires Ordered(base) && Ordered(cells) && r < |base| && Written(base, base, cells, which, tally)
    requires cells[r].itemCount == RightCount(base, r, which, tally)
    requires Done(base, cells, r, |base[r].children|, which, tally)
    ensures TreeOf(cells, r) == WithCounts(TreeOf(base, r), which, tally)
  {
    WithCountsChildren(TreeOf(base, r).children, which, tally);
    assert TreeOf(cells, r).children == WithCounts(TreeOf(base, r), which, tally).children;
  }

  function TotalOfFirst(t: Tree, k: nat, which: Which, tally: map<string, nat>): nat
    requires k <= |t.children|
  {
    TotalAll(t.children[..k], which, tally)
  }

  lemma TotalStep(t: Tree, k: nat, which: Which, tally: map<string, nat>)
    requires k < |t.children|
    ensures TotalOfFirst(t, k + 1, which, tally)
      == TotalOfFirst(t, k, which, tally) + Total(t.children[k], which, tally)
  {
    assert t.children[..k + 1] == t.children[..k] + [t.children[k]];
    TotalAppend(t.children[..k], t.children[k], which, tally);
  }

  lemma AllOfThem(t: Tree, which: Which, tally: map<string, nat>)
    ensures TotalOfFirst(t, |t.children|, which, tally) == TotalAll(t.children, which, tally)
    ensures TotalOfFirst(t, 0, which, tally) == 0
  {
    assert t.children[..|t.children|] == t.children;
  }

  lemma CountParts(base: seq<Cell>, nodes: seq<TreeNode>, node: TreeNode, which: Which, tally: map<string, nat>)
    requires Store(nodes) && node in nodes && Ordered(base) && Written(base, base, Snap(nodes), which, tally)
    ensures node.id < |base| == |nodes|
    ensures Total(TreeOf(base, node.id), which, tally)
      == (var id := if which.ByFolder? then node.folderId else node.collectionId;
          if Truthy(id) && id.value in tally then tally[id.value] else 0)
            + TotalAll(TreeOf(base, node.id).children, which, tally)
    ensures which.ByCollection? && node.kind.Organization? ==>
      RightCount(base, node.id, which, tally) == base[node.id].itemCount
    ensures !(which.ByCollection? && node.kind.Organization?) ==>
      RightCount(base, node.id, which, tally) == Total(TreeOf(base, node.id), which, tally)
  {
    assert nodes[node.id] == node;
    assert node.Fields() == Snap(nodes)[node.id].info;
  }

  /** Writing the right count of one node keeps every written count right. */
  lemma SetIsWritten(
    base: seq<Cell>, cells: seq<Cell>, after: seq<Cell>, r: nat, total: nat, which: Which, tally: map<string, nat>)
    requires Ordered(base) && Written(base, base, cells, which, tally) && r < |base|
    requires after == cells[r := cells[r].(itemCount := total)] && total == RightCount(base, r, which, tally)
    ensures Written(base, cells, after, which, tally) && after[r].itemCount == RightCount(base, r, which, tally)
  {
    hide RightCount;
  }

  lemma StoreCell(nodes: seq<TreeNode>, node: TreeNode)
    requires Store(nodes) && node in nodes
    ensures Ordered(Snap(nodes)) && node.id < |nodes| && Snap(nodes)[node.id] == node.ToCell()
  {
    assert nodes[node.id] == node;
  }

  lemma NotCountedYet(base: seq<Cell>, cells: seq<Cell>, r: nat, which: Which, tally: map<string, nat>)
    requires Ordered(base) && Ordered(cells) && r < |base| && Written(base, base, cells, which, tally)
    ensures Written(base, cells, cells, which, tally) && |cells| == |base|
    ensures RightCount(base, r, which, tally) == base[r].itemCount ==> cells[r].itemCount == base[r].itemCount
  {
  }

  /** The recursive count, writing each node after its children. */
  method ComputeCounts(
    node: TreeNode, which: Which, tally: map<string, nat>, ghost nodes: seq<TreeNode>, ghost base: seq<Cell>)
    returns (total: nat)
    requires Store(nodes) && node in nodes && Ordered(base) && Written(base, base, Snap(nodes), which, tally)
    modifies nodes`itemCount
    ensures Store(nodes) && Written(base, old(Snap(nodes)), Snap(nodes), which, tally)
    ensures total == Total(TreeOf(base, node.id), which, tally)
    ensures TreeOf(Snap(nodes), node.id) == WithCounts(TreeOf(base, node.id), which, tally)
    decreases |nodes| - node.id, 1
  {
    CountParts(base, nodes, node, which, tally);
    StoreCell(nodes, node);
    hide WithCounts, Total, TotalAll, Ordered, RightCount, Written, Done, TreeOf, Store, Truthy;
    var id := if which.ByFolder? then node.folderId else node.collectionId;
    var direct := if Truthy(id) && id.value in tally then tally[id.value] else 0;
    ghost var start := Snap(nodes);
    var below := CountChildren(node, which, tally, nodes, base);
    total := direct + below;
    ghost var cells := Snap(nodes);
    StoreCell(nodes, node);
    NotCountedYet(base, cells, node.id, which, tally);
    if !(which.ByCollection? && node.kind.Organization?) {
      SetCount(node, total, nodes);
      StoreCell(nodes, node);
      SetIsWritten(base, cells, Snap(nodes), node.id, total, which, tally);
    }
    WrittenOn(base, start, cells, Snap(nodes), which, tally);
    DoneStays(base, cells, Snap(nodes), node.id, |base[node.id].children|, which, tally);
    AllCounted(base, Snap(nodes), node.id, which, tally);
  }

  lemma StoreOrdered(nodes: seq<TreeNode>)
    requires Store(nodes)
    ensures Ordered(Snap(nodes))
  {
  }

  lemma CountingStarts(base: seq<Cell>, nodes: seq<TreeNode>, node: TreeNode, which: Which, tally: map<string, nat>)
    requires Store(nodes) && node in nodes && Ordered(base) && Written(base, base, Snap(nodes), which, tally)
    ensures node.id < |base| == |nodes| && Ordered(Snap(nodes))
    ensures Written(base, Snap(nodes), Snap(nodes), which, tally) && Done(base, Snap(nodes), node.id, 0, which, tally)
    ensures |TreeOf(base, node.id).children| == |base[node.id].children| == |node.children|
  {
    assert nodes[node.id] == node;
    assert |Snap(nodes)[node.id].children| == |node.children|;
  }

  lemma ChildIs(base: seq<Cell>, nodes: seq<TreeNode>, node: TreeNode, k: nat, which: Which, tally: map<string, nat>)
    requires Store(nodes) && node in nodes && Ordered(base) && Written(base, base, Snap(nodes), which, tally)
    requires k < |node.children|
    ensures var c := node.children[k];
      && c in nodes && node.id < c.id < |nodes| == |base| && k < |base[node.id].children|
        && c.id == base[node.id].children[k]
      && k < |TreeOf(base, node.id).children| && TreeOf(base, node.id).children[k] == TreeOf(base, c.id)
  {
    assert nodes[node.id] == node;
    ChildAt(nodes, node.id, k);
  }

  lemma DoneNext(base: seq<Cell>, cells: seq<Cell>, r: nat, k: nat, which: Which, tally: map<string, nat>)
    requires Ordered(base) && Ordered(cells) && |cells| == |base| && r < |base| && k < |base[r].children|
    requires Done(base, cells, r, k, which, tally)
    requires TreeOf(cells, base[r].children[k]) == WithCounts(TreeOf(base, base[r].children[k]), which, tally)
    ensures Done(base, cells, r, k + 1, which, tally)
  {
  }

  lemma WrittenOn(base: seq<Cell>, a: seq<Cell>, b: seq<Cell>, c: seq<Cell>, which: Which, tally: map<string, nat>)
    requires Ordered(base) && Written(base, a, b, which, tally) && Written(base, b, c, which, tally)
    ensures Written(base, a, c, which, tally)
  {
  }

  lemma OneMoreCounted(
    base: seq<Cell>, start: seq<Cell>, a: seq<Cell>, b: seq<Cell>, r: nat, k: nat, which: Which,
    tally: map<string, nat>)
    requires Ordered(base) && Ordered(a) && Ordered(b) && r < |base| && k < |base[r].children|
    requires Written(base, base, a, which, tally) && Written(base, a, b, which, tally)
      && Written(base, start, a, which, tally)
    requires |a| == |base| == |b| && Done(base, a, r, k, which, tally)
    requires TreeOf(b, base[r].children[k]) == WithCounts(TreeOf(base, base[r].children[k]), which, tally)
    ensures Done(base, b, r, k + 1, which, tally)
    ensures Written(base, base, b, which, tally) && Written(base, start, b, which, tally)
  {
    hide Written, RightCount, WithCounts;
    DoneStays(base, a, b, r, k, which, tally);
    DoneNext(base, b, r, k, which, tally);
    WrittenOn(base, start, a, b, which, tally);
  }

  method CountChildren(
    node: TreeNode, which: Which, tally: map<string, nat>, ghost nodes: seq<TreeNode>, ghost base: seq<Cell>)
    returns (total: nat)
    requires Store(nodes) && node in nodes && Ordered(base) && Written(base, base, Snap(nodes), which, tally)
    modifies nodes`itemCount
    ensures Store(nodes) && Written(base, old(Snap(nodes)), Snap(nodes), which, tally)
    ensures Written(base, base, Snap(nodes), which, tally)
    ensures total == TotalAll(TreeOf(base, node.id).children, which, tally)
    ensures Done(base, Snap(nodes), node.id, |base[node.id].children|, which, tally)
    decreases |nodes| - node.id, 0
  {
    hide *;
    CountingStarts(base, nodes, node, which, tally);
    ghost var start, t := Snap(nodes), TreeOf(base, node.id);
    AllOfThem(t, which, tally);
    var children := node.children;
    total := 0;
    for k := 0 to |children|
      invariant node.children == children && |children| == |t.children| == |base[node.id].children|
      invariant Store(nodes) && Written(base, start, Snap(nodes), which, tally)
      invariant Ordered(Snap(nodes)) && Written(base, base, Snap(nodes), which, tally)
      invariant total == TotalOfFirst(t, k, which, tally)
      invariant Done(base, Snap(nodes), node.id, k, which, tally)
    {
      ghost var before := Snap(nodes);
      ChildIs(base, nodes, node, k, which, tally);
      var n := ComputeCounts(children[k], which, tally, nodes, base);
      StoreOrdered(nodes);
      OneMoreCounted(base, start, before, Snap(nodes), node.id, k, which, tally);
      TotalStep(t, k, which, tally);
      total := total + n;
    }
    AllOfThem(t, which, tally);
  }

  function FolderLeaf(f: FolderSummary): Leaf {
    Leaf(Some(f.id), None, None, Folder)
  }

  method InsertFolder(
    root: TreeNode, f: FolderSummary, ghost nodes: seq<TreeNode>)
    returns (ghost nodes': seq<TreeNode>)
    requires Store(nodes) && root in nodes && root.id == 0
    modifies nodes
    ensures nodes <= nodes' && forall k :: |nodes| <= k < |nodes'| ==> fresh(nodes'[k])
    ensures Store(nodes')
    ensures Model(nodes', root) == InsertIntoTree(old(Model(nodes, root)), SplitPath(f.name), FolderLeaf(f), root.key)
  {
    var segments := SplitPath(f.name);
    nodes' := nodes;
    if |segments| > 0 {
      nodes' := InsertPath(root, segments, FolderLeaf(f), nodes);
    }
  }

  function RestOf(insertions: seq<Insertion>, i: nat): seq<Insertion>
    requires i <= |insertions|
  {
    insertions[i..]
  }

  lemma InsertNext(t: Tree, insertions: seq<Insertion>, i: nat)
    requires i < |insertions|
    ensures InsertAll(t, RestOf(insertions, i))
      == InsertAll(InsertIntoTree(t, insertions[i].segments, insertions[i].leaf, t.info.key), RestOf(insertions, i + 1))
  {
    assert RestOf(insertions, i)[1..] == RestOf(insertions, i + 1);
  }

  lemma InsertEnds(t: Tree, insertions: seq<Insertion>)
    ensures RestOf(insertions, 0) == insertions && InsertAll(t, RestOf(insertions, |insertions|)) == t
  {
  }

  lemma NewRoot(root: TreeNode, info: Info, count: nat)
    requires root.id == 0 && root.children == [] && root.Fields() == info && root.itemCount == count
    ensures Store([root]) && Model([root], root) == Node(info, [], count)
  {
  }

  lemma FolderInsertionAt(folders: seq<FolderSummary>, i: nat)
    requires i < |folders|
    ensures |FolderInsertions(folders)| == |folders|
    ensures FolderInsertions(folders)[i] == Insertion(SplitPath(folders[i].name), FolderLeaf(folders[i]))
  {
  }

  lemma KeyOfModel(nodes: seq<TreeNode>, root: TreeNode)
    requires Store(nodes) && root in nodes && root.id == 0
    ensures Model(nodes, root).info.key == root.key
  {
  }

  lemma NothingWritten(cells: seq<Cell>, which: Which, tally: map<string, nat>)
    requires Ordered(cells)
    ensures Written(cells, cells, cells, which, tally)
  {
  }

  method BuildFolders(folders: seq<FolderSummary>) returns (root: TreeNode, ghost nodes: seq<TreeNode>)
    ensures Store(nodes) && root in nodes && forall k :: 0 <= k < |nodes| ==> fresh(nodes[k])
    ensures Model(nodes, root) == InsertAll(Node(FOLDERS_ROOT, [], 0), FolderInsertions(folders))
  {
    root := new TreeNode(0, FOLDERS_ROOT, 0);
    nodes := [root];
    NewRoot(root, FOLDERS_ROOT, 0);
    hide *;
    ghost var start, all := Model(nodes, root), FolderInsertions(folders);
    InsertEnds(start, all);
    for i := 0 to |folders|
      invariant Store(nodes) && root in nodes && root.id == 0 && fresh(nodes)
      invariant InsertAll(Model(nodes, root), RestOf(all, i)) == InsertAll(start, all)
    {
      FolderInsertionAt(folders, i);
      InsertNext(Model(nodes, root), all, i);
      KeyOfModel(nodes, root);
      nodes := InsertFolder(root, folders[i], nodes);
    }
    InsertEnds(Model(nodes, root), all);
  }

  /** `buildFolderTree` up to its final sort: one insertion per folder, then the counts. */
  method BuildFolderNodes(
    folders: seq<FolderSummary>, byFolder: map<string, nat>)
    returns (root: TreeNode, ghost nodes: seq<TreeNode>)
    ensures Store(nodes) && root in nodes && forall k :: 0 <= k < |nodes| ==> fresh(nodes[k])
    ensures Model(nodes, root) == WithCounts(InsertAll(Node(FOLDERS_ROOT, [], 0), FolderInsertions(folders)),
      ByFolder, byFolder)
  {
    root, nodes := BuildFolders(folders);
    NothingWritten(Snap(nodes), ByFolder, byFolder);
    hide InsertAll, FolderInsertions, WithCounts, Total, TreeOf, Written;
    var total := ComputeCounts(root, ByFolder, byFolder, nodes, Snap(nodes));
  }
}
