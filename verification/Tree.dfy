/** Value model of the sidebar tree: src/lib/tree.ts. `TreeNodes` refines it with mutable nodes. */
module Tree {
  import opened Optional
  import opened Text

  datatype Kind = Folder | Organization | Collection

  /** Everything in a tree node (the `label` of the source is `name` here) except its children and its cached count. */
  datatype Info = Info(
    key: string, name: string, kind: Kind,
    folderId: Option<string>, organizationId: Option<string>, collectionId: Option<string>)

  datatype Tree = Node(info: Info, children: seq<Tree>, itemCount: nat)

  datatype Leaf = Leaf(
    folderId: Option<string>, collectionId: Option<string>, organizationId: Option<string>, kind: Kind)

  /** JavaScript's `if (s)` on a nullable string. */
  predicate Truthy(s: Option<string>) {
    s.Some? && s.value != ""
  }

  // ------------------------------------------------------------------ paths

  function TrimmedNonEmpty(parts: seq<string>): (segments: seq<string>)
    ensures forall i :: 0 <= i < |segments| ==> segments[i] != ""
    ensures (forall i :: 0 <= i < |parts| ==> '/' !in parts[i]) ==>
      forall i :: 0 <= i < |segments| ==> '/' !in segments[i]
  {
    if parts == [] then []
    else
      var rest := TrimmedNonEmpty(parts[1..]);
      if Trim(parts[0], JsSpaces) == "" then rest else [Trim(parts[0], JsSpaces)] + rest
  }

  function SplitPath(name: string): (segments: seq<string>)
    ensures forall i :: 0 <= i < |segments| ==> segments[i] != "" && '/' !in segments[i]
  {
    TrimmedNonEmpty(Split(name, '/'))
  }

  /** The segments are the parts that are not blank, in order and trimmed: part `at[k]` is the `k`-th. */
  ghost predicate Picks(parts: seq<string>, segments: seq<string>, at: seq<nat>) {
    && |at| == |segments|
    && (forall k :: 0 <= k < |at| ==> at[k] < |parts| && Trim(parts[at[k]], JsSpaces) == segments[k])
    && (forall k, m :: 0 <= k < m < |at| ==> at[k] < at[m])
    && (forall j: nat :: j < |parts| ==> (j in at <==> Trim(parts[j], JsSpaces) != ""))
  }

  lemma PicksNext(parts: seq<string>, last: string, segments: seq<string>, at: seq<nat>)
    requires Picks(parts, segments, at)
    ensures Trim(last, JsSpaces) == "" ==> Picks(parts + [last], segments, at)
    ensures Trim(last, JsSpaces) != "" ==>
      Picks(parts + [last], segments + [Trim(last, JsSpaces)], at + [|parts|])
  {
    hide Trim;
    var all := parts + [last];
    assert forall j: nat :: j < |parts| ==> all[j] == parts[j];
  }

  lemma NothingPicked()
    ensures Picks([], TrimmedNonEmpty([]), [])
  {
  }

  lemma {:induction false} TrimmedInOrder(parts: seq<string>) returns (at: seq<nat>)
    ensures Picks(parts, TrimmedNonEmpty(parts), at)
  {
    hide *;
    at := [];
    if parts == [] {
      NothingPicked();
    } else {
      var front, last := parts[..|parts| - 1], parts[|parts| - 1];
      at := TrimmedInOrder(front);
      var found := TrimmedNonEmpty(front);
      TrimmedAppend(front, last);
      PicksNext(front, last, found, at);
      assert parts == front + [last];
      if Trim(last, JsSpaces) != "" {
        at := at + [|front|];
        assert TrimmedNonEmpty(parts) == found + [Trim(last, JsSpaces)];
      } else {
        assert TrimmedNonEmpty(parts) == found + [] == found;
      }
    }
  }

  lemma {:induction false} TrimmedAppend(parts: seq<string>, last: string)
    ensures TrimmedNonEmpty(parts + [last])
      == TrimmedNonEmpty(parts) + if Trim(last, JsSpaces) == "" then [] else [Trim(last, JsSpaces)]
  {
    hide Trim;
    if parts == [] {
      assert [] + [last] == [last] && [last][1..] == [];
    } else {
      TrimmedAppend(parts[1..], last);
      assert (parts + [last])[1..] == parts[1..] + [last];
    }
  }

  /**
   * A name falls into parts between its slashes, and the segments are those that are not blank, in order, each without
   * the white space around it.
   */
  lemma SplitPathExactly(name: string) returns (parts: seq<string>, at: seq<nat>)
    ensures Join(parts, "/") == name && forall j :: 0 <= j < |parts| ==> '/' !in parts[j]
    ensures Picks(parts, SplitPath(name), at)
  {
    parts := Split(name, '/');
    JoinSplit(name, '/');
    at := TrimmedInOrder(parts);
    hide Split, Join, Picks, TrimmedNonEmpty;
  }

  /** The index of the last `#`, or -1. */
  function LastHash(s: string): (i: int)
    ensures -1 <= i < |s|
    ensures i >= 0 ==> s[i] == '#' && '#' !in s[i + 1..]
    ensures i < 0 ==> '#' !in s
  {
    if s == "" then -1
    else if s[|s| - 1] == '#' then |s| - 1
    else LastHash(s[..|s| - 1])
  }

  const FOLDERS_ROOT_PREFIX := "folders/"

  function FolderPathFromKey(key: string): Option<string> {
    if !(FOLDERS_ROOT_PREFIX <= key) then None
    else
      var path := key[|FOLDERS_ROOT_PREFIX|..];
      var i := LastHash(path);
      Some(if i >= 0 then path[..i] else path)
  }

  // --------------------------------------------------------------- insertion

  predicate Matches(c: Tree, name: string, synthetic: bool) {
    c.info.name == name && (synthetic ==> c.info.folderId.None? && c.info.collectionId.None?)
  }

  /** `children.find(..)`: the first matching index, or the length. */
  function First(cs: seq<Tree>, name: string, synthetic: bool): (k: nat)
    ensures k <= |cs|
    ensures k < |cs| ==> Matches(cs[k], name, synthetic)
    ensures forall i :: 0 <= i < k ==> !Matches(cs[i], name, synthetic)
  {
    if cs == [] || Matches(cs[0], name, synthetic) then 0 else 1 + First(cs[1..], name, synthetic)
  }

  function SyntheticInfo(key: string, name: string, leaf: Leaf): Info {
    Info(key, name, leaf.kind, None, leaf.organizationId, None)
  }

  function TagId(leaf: Leaf): Option<string> {
    if leaf.folderId.Some? then leaf.folderId else leaf.collectionId
  }

  function LeafInfo(key: string, name: string, leaf: Leaf, collision: bool): Info {
    Info(if collision && Truthy(TagId(leaf)) then key + "#" + TagId(leaf).value else key,
         name, leaf.kind, leaf.folderId, leaf.organizationId, leaf.collectionId)
  }

  function Promote(info: Info, leaf: Leaf): Info {
    info.(folderId := if Truthy(leaf.folderId) then leaf.folderId else info.folderId,
          collectionId := if Truthy(leaf.collectionId) then leaf.collectionId else info.collectionId)
  }

  function InsertIntoTree(t: Tree, segments: seq<string>, leaf: Leaf, acc: string): Tree
    decreases |segments|
  {
    if segments == [] then t
    else
      var seg, cs := segments[0], t.children;
      var key := acc + "/" + seg;
      if |segments| > 1 then
        var k := First(cs, seg, false);
        if k < |cs| then t.(children := cs[k := InsertIntoTree(cs[k], segments[1..], leaf, key)])
        else t.(children := cs + [InsertIntoTree(Node(SyntheticInfo(key, seg, leaf), [], 0), segments[1..], leaf, key)])
      else
        var k := First(cs, seg, true);
        if k < |cs| then t.(children := cs[k := cs[k].(info := Promote(cs[k].info, leaf))])
        else t.(children := cs + [Node(LeafInfo(key, seg, leaf, First(cs, seg, false) < |cs|), [], 0)])
  }

  // -------------------------------------------------------- counts and search

  datatype Which = ByFolder | ByCollection

  function Id(info: Info, which: Which): Option<string> {
    if which.ByFolder? then info.folderId else info.collectionId
  }

  function Direct(info: Info, which: Which, tally: map<string, nat>): nat {
    if Truthy(Id(info, which)) && Id(info, which).value in tally then tally[Id(info, which).value] else 0
  }

  function Total(t: Tree, which: Which, tally: map<string, nat>): nat
    decreases t, 1
  {
    Direct(t.info, which, tally) + TotalAll(t.children, which, tally)
  }

  function TotalAll(cs: seq<Tree>, which: Which, tally: map<string, nat>): nat
    decreases cs, 0
  {
    if cs == [] then 0 else Total(cs[0], which, tally) + TotalAll(cs[1..], which, tally)
  }

  /** `computeFolderCounts` / `computeCollectionCounts`: every count is written, except an organization root's. */
  function WithCounts(t: Tree, which: Which, tally: map<string, nat>): Tree
    decreases t, 1
  {
    Node(t.info, WithCountsAll(t.children, which, tally),
         if which.ByCollection? && t.info.kind.Organization? then t.itemCount else Total(t, which, tally))
  }

  function WithCountsAll(cs: seq<Tree>, which: Which, tally: map<string, nat>): seq<Tree>
    decreases cs, 0
  {
    if cs == [] then [] else [WithCounts(cs[0], which, tally)] + WithCountsAll(cs[1..], which, tally)
  }

  function FindIn(t: Tree, key: string): Option<Tree>
    decreases t, 1
  {
    if t.info.key == key then Some(t) else FindNode(t.children, key)
  }

  function FindNode(roots: seq<Tree>, key: string): Option<Tree>
    decreases roots, 0
  {
    if roots == [] then None
    else
      var hit := FindIn(roots[0], key);
      if hit.Some? then hit else FindNode(roots[1..], key)
  }

  function CollectIds(t: Tree, which: Which): set<string>
    decreases t, 1
  {
    (if Truthy(Id(t.info, which)) then {Id(t.info, which).value} else {}) + CollectIdsAll(t.children, which)
  }

  function CollectIdsAll(cs: seq<Tree>, which: Which): set<string>
    decreases cs, 0
  {
    if cs == [] then {} else CollectIds(cs[0], which) + CollectIdsAll(cs[1..], which)
  }

  // ------------------------------------------------------------------ sorting

  /** `localeCompare` is a library order: any relation may stand for "a sorts no later than b". */
  type NameOrder = (string, string) -> bool

  /** Stable insertion into a sorted list: before the first element that is strictly later. */
  function InsertSorted(x: Tree, sorted: seq<Tree>, leq: NameOrder): seq<Tree> {
    if sorted == [] || leq(x.info.name, sorted[0].info.name) then [x] + sorted
    else [sorted[0]] + InsertSorted(x, sorted[1..], leq)
  }

  function SortByName(cs: seq<Tree>, leq: NameOrder): seq<Tree> {
    if cs == [] then [] else InsertSorted(cs[0], SortByName(cs[1..], leq), leq)
  }

  function SortTree(t: Tree, leq: NameOrder): Tree
    decreases t, 1
  {
    t.(children := SortByName(SortAll(t.children, leq), leq))
  }

  function SortAll(cs: seq<Tree>, leq: NameOrder): seq<Tree>
    decreases cs, 0
  {
    if cs == [] then [] else [SortTree(cs[0], leq)] + SortAll(cs[1..], leq)
  }

  // ----------------------------------------------------------- building trees

  datatype FolderSummary = FolderSummary(id: string, name: string)
  datatype CollectionSummary = CollectionSummary(id: string, organizationId: string, name: string)
  datatype OrganizationSummary = OrganizationSummary(id: string, name: string)

  const FOLDERS_ROOT := Info("folders", "Folders", Folder, None, None, None)

  /** One call of `insertIntoTree`; a name without segments is skipped. */
  datatype Insertion = Insertion(segments: seq<string>, leaf: Leaf)

  function InsertAll(t: Tree, insertions: seq<Insertion>): Tree
    decreases |insertions|
  {
    if insertions == [] then t
    else InsertAll(InsertIntoTree(t, insertions[0].segments, insertions[0].leaf, t.info.key), insertions[1..])
  }

  function FolderInsertions(folders: seq<FolderSummary>): (r: seq<Insertion>)
    ensures |r| == |folders|
  {
    seq(|folders|, i requires 0 <= i < |folders| =>
      Insertion(SplitPath(folders[i].name), Leaf(Some(folders[i].id), None, None, Folder)))
  }

  function BuildFolderTree(folders: seq<FolderSummary>, byFolder: map<string, nat>, leq: NameOrder): Tree {
    SortTree(WithCounts(InsertAll(Node(FOLDERS_ROOT, [], 0), FolderInsertions(folders)), ByFolder, byFolder), leq)
  }

  /** The collections of one organization, in list order; the others are skipped. */
  function CollectionInsertions(collections: seq<CollectionSummary>, org: string): (r: seq<Insertion>)
    ensures |r| == |collections|
  {
    seq(|collections|, i requires 0 <= i < |collections| =>
      Insertion(if collections[i].organizationId == org then SplitPath(collections[i].name) else [],
                Leaf(None, Some(collections[i].id), Some(org), Collection)))
  }

  function OrgRoot(org: OrganizationSummary, byOrg: map<string, nat>): Tree {
    Node(Info("org/" + org.id, org.name, Organization, None, Some(org.id), None), [],
         if org.id in byOrg then byOrg[org.id] else 0)
  }

  function BuildOrgTree(
    org: OrganizationSummary, collections: seq<CollectionSummary>,
    byOrg: map<string, nat>, byCollection: map<string, nat>, leq: NameOrder): Tree
  {
    var grown := InsertAll(OrgRoot(org, byOrg), CollectionInsertions(collections, org.id));
    SortTree(WithCounts(grown, ByCollection, byCollection), leq)
  }
}
