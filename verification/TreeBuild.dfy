/** `buildFolderTree` and `buildOrgTrees` of src/lib/tree.ts: grown, counted and sorted in place. */
module TreeBuild {
  import opened Optional
  import opened Tree
  import opened TreeNodes
  import opened NodeSort

  // -------------------------------------------------------------- folder tree

  /** Insertions, counts and sort on the nodes give the tree of the recursive functions. */
  method BuildFolderRoot(folders: seq<FolderSummary>, byFolder: map<string, nat>, leq: NameOrder)
    returns (root: TreeNode, ghost nodes: seq<TreeNode>)
    requires Comparable(leq)
    ensures Store(nodes) && root in nodes && Model(nodes, root) == BuildFolderTree(folders, byFolder, leq)
  {
    root, nodes := BuildFolderNodes(folders, byFolder);
    SortTreeNodes(root, leq, nodes);
  }

  // ------------------------------------------------------- organization trees

  lemma NothingLeft(t: Tree, leaf: Leaf, acc: string)
    ensures InsertIntoTree(t, [], leaf, acc) == t
  {
  }

  /** The collections of one organization, each inserted at its path; nothing for the others. */
  method InsertCollections(
    root: TreeNode, collections: seq<CollectionSummary>, org: string, ghost nodes: seq<TreeNode>)
    returns (ghost nodes': seq<TreeNode>)
    requires Store(nodes) && root in nodes && root.id == 0
    modifies nodes
    ensures nodes <= nodes' && forall k :: |nodes| <= k < |nodes'| ==> fresh(nodes'[k])
    ensures Store(nodes') && root in nodes'
    ensures Model(nodes', root) == InsertAll(old(Model(nodes, root)), CollectionInsertions(collections, org))
  {
    hide *;
    nodes' := nodes;
    ghost var all := CollectionInsertions(collections, org);
    ghost var start := Model(nodes, root);
    InsertEnds(start, all);
    for i := 0 to |collections|
      invariant nodes <= nodes' && forall k :: |nodes| <= k < |nodes'| ==> fresh(nodes'[k])
      invariant Store(nodes') && root in nodes'
      invariant InsertAll(Model(nodes', root), RestOf(all, i)) == InsertAll(start, all)
    {
      var c := collections[i];
      InsertNext(Model(nodes', root), all, i);
      InsertionAt(collections, org, i);
      KeyOfModel(nodes', root);
      if c.organizationId == org {
        var segments := SplitPath(c.name);
        if |segments| > 0 {
          var leaf := Leaf(None, Some(c.id), Some(org), Collection);
          nodes' := InsertPath(root, segments, leaf, nodes');
        } else {
          NothingLeft(Model(nodes', root), all[i].leaf, root.key);
        }
      } else {
        NothingLeft(Model(nodes', root), all[i].leaf, root.key);
      }
    }
    InsertEnds(Model(nodes', root), all);
  }

  lemma InsertionAt(collections: seq<CollectionSummary>, org: string, i: nat)
    requires i < |collections|
    ensures |CollectionInsertions(collections, org)| == |collections|
    ensures CollectionInsertions(collections, org)[i] == Insertion(
      if collections[i].organizationId == org then SplitPath(collections[i].name) else [],
      Leaf(None, Some(collections[i].id), Some(org), Collection))
  {
  }

  /** One organization: its root starts with the organization's own count, which the counting pass leaves alone. */
  method BuildOrgRoot(
    org: OrganizationSummary, collections: seq<CollectionSummary>, byOrg: map<string, nat>,
    byCollection: map<string, nat>,
    leq: NameOrder)
    returns (root: TreeNode, ghost nodes: seq<TreeNode>)
    requires Comparable(leq)
    ensures Store(nodes) && root in nodes
    ensures Model(nodes, root) == BuildOrgTree(org, collections, byOrg, byCollection, leq)
  {
    var count: nat := if org.id in byOrg then byOrg[org.id] else 0;
    var info := Info("org/" + org.id, org.name, Organization, None, Some(org.id), None);
    root := new TreeNode(0, info, count);
    nodes := [root];
    NewRoot(root, info, count);
    assert Model(nodes, root) == OrgRoot(org, byOrg);
    hide InsertAll, CollectionInsertions, WithCounts, TotalAll, TreeOf, Written, Ordered, SortTree;
    nodes := InsertCollections(root, collections, org.id, nodes);
    NothingWritten(Snap(nodes), ByCollection, byCollection);
    var total := ComputeCounts(root, ByCollection, byCollection, nodes, Snap(nodes));
    SortTreeNodes(root, leq, nodes);
  }

  /** `buildOrgTrees`: one tree for each organization, in order. */
  method BuildOrgRoots(
    orgs: seq<OrganizationSummary>, collections: seq<CollectionSummary>, byOrg: map<string, nat>,
    byCollection: map<string, nat>,
    leq: NameOrder)
    returns (roots: seq<TreeNode>, ghost stores: seq<seq<TreeNode>>)
    requires Comparable(leq)
    ensures |roots| == |stores| == |orgs|
    ensures forall i :: 0 <= i < |orgs| ==>
      && Store(stores[i]) && roots[i] in stores[i]
      && Model(stores[i], roots[i]) == BuildOrgTree(orgs[i], collections, byOrg, byCollection, leq)
  {
    hide *;
    roots, stores := [], [];
    for n := 0 to |orgs|
      invariant |roots| == |stores| == n
      invariant forall i :: 0 <= i < n ==>
        && Store(stores[i]) && roots[i] in stores[i]
        && Model(stores[i], roots[i]) == BuildOrgTree(orgs[i], collections, byOrg, byCollection, leq)
    {
      ghost var nodes;
      var root;
      root, nodes := BuildOrgRoot(orgs[n], collections, byOrg, byCollection, leq);
      roots, stores := roots + [root], stores + [nodes];
    }
  }
}
