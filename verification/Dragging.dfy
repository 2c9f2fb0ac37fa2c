/** Dragging a node of the sidebar: what the tree shows under it against what the engine moves. */
module Dragging {
  import opened Optional
  import opened Text
  import opened Tree
  import opened TreeShape
  import opened TreeIdents
  import opened FolderMove
  import VaultTrees

  /** A segment as the sidebar spells it. */
  predicate Tidy(segment: string) {
    segment != "" && '/' !in segment && Trim(segment, JsSpaces) == segment
  }

  predicate AllTidy(path: Path) {
    forall i :: 0 <= i < |path| ==> Tidy(path[i])
  }

  lemma TrimTwice(s: string, edge: Edge)
    ensures Trim(Trim(s, edge), edge) == Trim(s, edge)
  {
  }

  lemma {:induction false} PartsAreTidy(parts: seq<string>)
    requires forall i :: 0 <= i < |parts| ==> '/' !in parts[i]
    ensures AllTidy(TrimmedNonEmpty(parts))
  {
    if parts != [] {
      TrimTwice(parts[0], JsSpaces);
      PartsAreTidy(parts[1..]);
    }
  }

  /** The segments the tree shows are tidy. */
  lemma SplitIsTidy(name: string)
    ensures AllTidy(SplitPath(name))
  {
    PartsAreTidy(Split(name, '/'));
  }

  lemma {:induction false} TidyStays(parts: seq<string>, path: Path)
    requires AllTidy(path) && path <= parts
    ensures path <= TrimmedNonEmpty(parts)
  {
    if path != [] {
      assert parts[0] == path[0];
      TidyStays(parts[1..], path[1..]);
      assert path == [path[0]] + path[1..];
    }
  }

  /** Everything the engine moves for the path of a node is shown at or below that node. */
  lemma MovedIsShown(name: string, path: Path)
    requires AllTidy(path) && path != [] && FolderMove.Under(name, Join(path, "/"))
    ensures path <= SplitPath(name)
  {
    SplitJoin(path, '/');
    UnderIsSegmentPrefix(name, Join(path, "/"));
    TidyStays(Split(name, '/'), path);
  }

  /** The raw segments of the name begin with the path, spaces included. */
  predicate RawPrefix(name: string, path: Path) {
    path <= Segments(name)
  }

  /** Of the folders shown at or below a node, those move that are spelled with exactly its segments. */
  lemma ShownMovesExactly(name: string, path: Path)
    requires AllTidy(path) && path != []
    ensures FolderMove.Under(name, Join(path, "/")) <==> path <= SplitPath(name) && RawPrefix(name, path)
  {
    SplitJoin(path, '/');
    UnderIsSegmentPrefix(name, Join(path, "/"));
    if RawPrefix(name, path) {
      assert HasPrefix(Segments(name), Segments(Join(path, "/")));
      MovedIsShown(name, path);
    }
  }

  lemma {:induction false} InfoIdent(t: Tree, path: Path, root: string, which: Which, p: Path, i: Info)
    requires (p, i) in Gather(t, path, InfoFact)
    ensures IdentOf(root, which, p, i) in Gather(t, path, IdentFact(root, which))
    decreases t
  {
    if (p, i) != (path, t.info) {
      var j := GatherAllMember(t.children, path, InfoFact, (p, i));
      InfoIdent(t.children[j], path + [t.children[j].info.name], root, which, p, i);
      GatherMember(t.children, j, path, IdentFact(root, which));
    }
  }

  /** The path of every node of the folder tree is made of segments as the sidebar spells them. */
  lemma TreePathsAreTidy(
    folders: seq<FolderSummary>, byFolder: map<string, nat>, leq: NameOrder, p: Path, i: Info)
    requires VaultTrees.FoldersOk(folders)
    requires (p, i) in Gather(BuildFolderTree(folders, byFolder, leq), [], InfoFact) && p != []
    ensures AllTidy(p)
  {
    var root, all := Node(FOLDERS_ROOT, [], 0), FolderInsertions(folders);
    var x := IdentOf("folders", ByFolder, p, i);
    InfoIdent(BuildFolderTree(folders, byFolder, leq), [], "folders", ByFolder, p, i);
    VaultTrees.BuiltGather(InsertAll(root, all), ByFolder, byFolder, leq, IdentFact("folders", ByFolder));
    VaultTrees.FolderInsertionsOk(folders);
    VaultTrees.IdentsExactly(root, all, ByFolder, x);
    hide SplitPath, Tidy;
    if VaultTrees.OnTheWay(all, x) {
      var k: nat :| VaultTrees.Prefixes(all, k, x.path);
      SplitIsTidy(folders[k].name);
    } else {
      var a: nat, b: nat :| VaultTrees.RepeatAt(all, a, b, x);
      SplitIsTidy(folders[b].name);
    }
  }

  /**
   * From the tree to the server: when the dragged node's key decodes to its path and the engine's trimming leaves that
   * path alone, the folders renamed are exactly those shown at or below it whose spelling begins with its segments.
   */
  lemma DragMovesExactly(
    folders: seq<FolderSummary>, byFolder: map<string, nat>, leq: NameOrder, p: Path, i: Info,
    target: Option<string>, k: nat)
    requires VaultTrees.FoldersOk(folders) && k < |folders|
    requires (p, i) in Gather(BuildFolderTree(folders, byFolder, leq), [], InfoFact) && p != []
    requires i.folderId.Some? ==> '#' !in i.folderId.value
    requires i.key != NaturalKey("folders", p) || '#' !in Join(p, "/")
    requires Clean(Join(p, "/")) == Join(p, "/")
    requires NewBase(Join(p, "/"), target).Accepted?
    ensures FolderPathFromKey(i.key) == Some(Join(p, "/"))
    ensures var move := NewBase(Join(p, "/"), target);
      Renamed(folders[k].name, move.source, move.base).Some?
      <==> p <= SplitPath(folders[k].name) && RawPrefix(folders[k].name, p)
  {
    VaultTrees.FolderKeysDecode(folders, byFolder, leq, p, i);
    TreePathsAreTidy(folders, byFolder, leq, p, i);
    ShownMovesExactly(folders[k].name, p);
  }

  /** A folder `work / a` is shown under `work` and stays behind when `work` is dragged. */
  lemma SpacedNameStaysBehind()
    ensures SplitPath("work / a") == ["work", "a"] && !FolderMove.Under("work / a", "work")
  {
    hide Split, Trim;
    SpacedSplits();
    SpacedTrims();
    var name := "work / a";
    assert ["work ", " a"][1..] == [" a"] && [" a"][1..] == [] && TrimmedNonEmpty([]) == [];
    assert TrimmedNonEmpty([" a"]) == ["a"];
    assert name[4] == ' ';
  }

  lemma SpacedSplits()
    ensures Split("work / a", '/') == ["work ", " a"]
  {
    assert "work / a" == "work " + ['/'] + " a";
    SplitConcat("work ", " a", '/');
    SplitWhole("work ", '/');
    SplitWhole(" a", '/');
  }

  lemma SpacedTrims()
    ensures Trim("work ", JsSpaces) == "work" && Trim(" a", JsSpaces) == "a"
  {
  }
}
