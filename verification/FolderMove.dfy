/**
 * Folder moves: the path functions of src-tauri/core/src/services/vault.rs, `rename_folder_path` of
 * src-tauri/src/commands/move_share.rs, and `canDropFolderOn` of src/lib/drag.ts.
 */
module FolderMove {
  import opened Optional
  import opened Text

  // ------------------------------------------------------------ path normal form

  /** `path.trim().trim_matches('/')`. */
  function Clean(path: string): (t: string)
    ensures t != "" ==> t[0] != '/' && t[|t| - 1] != '/'
  {
    Trim(Trim(path, RustSpaces), Slashes)
  }

  predicate StartsWith(s: string, prefix: string) {
    |prefix| <= |s| && s[..|prefix|] == prefix
  }

  /** `name` is the folder `path` itself or lies below it. */
  predicate Under(name: string, path: string) {
    name == path || StartsWith(name, path + "/")
  }

  // -------------------------------------------------------------------- renaming

  /** `rename_folder_under_move`. */
  function Renamed(name: string, source: string, base: string): Option<string> {
    if name == source then Some(base)
    else if StartsWith(name, source + "/") then Some(base + "/" + name[|source| + 1..])
    else None
  }

  function Segments(path: string): (parts: seq<string>)
    ensures |parts| > 0
  {
    Split(path, '/')
  }

  predicate HasPrefix(parts: seq<string>, prefix: seq<string>) {
    |prefix| <= |parts| && parts[..|prefix|] == prefix
  }

  /** Being under a path is having its segments in front. */
  lemma UnderIsSegmentPrefix(name: string, path: string)
    ensures Under(name, path) <==> HasPrefix(Segments(name), Segments(path))
    ensures StartsWith(name, path + "/") ==>
      Segments(name) == Segments(path) + Segments(name[|path| + 1..])
  {
    if StartsWith(name, path + "/") {
      assert name == path + "/" + name[|path| + 1..] by {
        assert name == name[..|path| + 1] + name[|path| + 1..];
      }
      SplitConcat(path, name[|path| + 1..], '/');
    }
    if HasPrefix(Segments(name), Segments(path)) {
      var p, rest := Segments(path), Segments(name)[|Segments(path)|..];
      JoinSplit(name, '/');
      JoinSplit(path, '/');
      assert Segments(name) == p + rest;
      if rest == [] {
        assert p + rest == p;
      } else {
        JoinConcat(p, rest, "/");
        assert name[..|path| + 1] == path + "/";
      }
    }
  }

  /** The string rewrite replaces a prefix of the segment list and nothing else, for every three strings. */
  lemma RenamedIsPrefixReplacement(name: string, source: string, base: string)
    ensures Renamed(name, source, base).Some? <==> HasPrefix(Segments(name), Segments(source))
    ensures Renamed(name, source, base).Some? ==>
      Segments(Renamed(name, source, base).value) == Segments(base) + Segments(name)[|Segments(source)|..]
  {
    UnderIsSegmentPrefix(name, source);
    if name != source && StartsWith(name, source + "/") {
      SplitConcat(base, name[|source| + 1..], '/');
      assert (Segments(source) + Segments(name[|source| + 1..]))[|Segments(source)|..]
        == Segments(name[|source| + 1..]);
    }
  }

  /** A renamed folder lies under the new base, and renaming it the other way gives its name back. */
  lemma RenamedBack(name: string, source: string, base: string)
    requires Under(name, source)
    ensures var n := Renamed(name, source, base).value; Under(n, base) && Renamed(n, base, source) == Some(name)
  {
    var n := Renamed(name, source, base).value;
    if name != source {
      var suffix := name[|source| + 1..];
      assert name == name[..|source| + 1] + suffix;
      assert n[..|base| + 1] == base + "/" && n[|base| + 1..] == suffix;
      assert |n| > |base|;
    }
  }

  /** Two different folders of the moved subtree never get one name. */
  lemma RenamedInjective(a: string, b: string, source: string, base: string)
    requires Under(a, source) && Under(b, source) && Renamed(a, source, base) == Renamed(b, source, base)
    ensures a == b
  {
    RenamedBack(a, source, base);
    RenamedBack(b, source, base);
  }

  // -------------------------------------------------------------- the whole move

  datatype Folder = Folder(id: string, name: string)

  /** `plan_folder_renames`: which folders change, in list order, and to what. */
  function Plan(folders: seq<Folder>, source: string, base: string): seq<Folder> {
    if folders == [] then []
    else
      var n := Renamed(folders[0].name, source, base);
      (if n.Some? then [Folder(folders[0].id, n.value)] else []) + Plan(folders[1..], source, base)
  }

  /** The folders after the plan has been carried out. */
  function Moved(folders: seq<Folder>, source: string, base: string): (r: seq<Folder>)
    ensures |r| == |folders|
    ensures forall i :: 0 <= i < |folders| ==> r[i].id == folders[i].id
  {
    if folders == [] then []
    else
      var n := Renamed(folders[0].name, source, base);
      [Folder(folders[0].id, if n.Some? then n.value else folders[0].name)] + Moved(folders[1..], source, base)
  }

  function MovedName(name: string, source: string, base: string): string {
    if Renamed(name, source, base).Some? then Renamed(name, source, base).value else name
  }

  lemma {:induction false} MovedAt(folders: seq<Folder>, source: string, base: string, i: nat)
    requires i < |folders|
    ensures Moved(folders, source, base)[i] == Folder(folders[i].id, MovedName(folders[i].name, source, base))
  {
    if i > 0 {
      MovedAt(folders[1..], source, base, i - 1);
    }
  }

  function Look(folders: seq<Folder>, id: string): Option<string> {
    if folders == [] then None
    else if folders[0].id == id then Some(folders[0].name)
    else Look(folders[1..], id)
  }

  predicate DistinctIds(folders: seq<Folder>) {
    forall i, j :: 0 <= i < j < |folders| ==> folders[i].id != folders[j].id
  }

  lemma {:induction false} LookAt(folders: seq<Folder>, i: nat)
    requires DistinctIds(folders) && i < |folders|
    ensures Look(folders, folders[i].id) == Some(folders[i].name)
  {
    if i > 0 {
      LookAt(folders[1..], i - 1);
    }
  }

  lemma {:induction false} PlanIds(folders: seq<Folder>, source: string, base: string, id: string)
    requires forall i :: 0 <= i < |folders| ==> folders[i].id != id
    ensures Look(Plan(folders, source, base), id) == None
  {
    if folders != [] {
      PlanIds(folders[1..], source, base, id);
      var n, rest := Renamed(folders[0].name, source, base), Plan(folders[1..], source, base);
      if n.Some? {
        assert ([Folder(folders[0].id, n.value)] + rest)[1..] == rest;
      } else {
        assert [] + rest == rest;
      }
    }
  }

  /** The plan names exactly the folders under the source, each once, with its prefix replaced. */
  lemma {:induction false} PlanCovers(folders: seq<Folder>, source: string, base: string, i: nat)
    requires DistinctIds(folders) && i < |folders|
    ensures Look(Plan(folders, source, base), folders[i].id) == Renamed(folders[i].name, source, base)
  {
    var n, rest := Renamed(folders[0].name, source, base), Plan(folders[1..], source, base);
    if n.Some? {
      assert ([Folder(folders[0].id, n.value)] + rest)[1..] == rest;
    } else {
      assert [] + rest == rest;
    }
    if i > 0 {
      PlanCovers(folders[1..], source, base, i - 1);
    } else {
      PlanIds(folders[1..], source, base, folders[0].id);
    }
  }

  /** No folder outside the source lies at or under the new base. */
  predicate NothingInTheWay(folders: seq<Folder>, source: string, base: string) {
    forall i :: 0 <= i < |folders| && !Under(folders[i].name, source) ==> !Under(folders[i].name, base)
  }

  lemma SameSuffix(a: string, b: string, suffix: string)
    ensures a + "/" + suffix == b + "/" + suffix ==> a == b
  {
    var x, y := a + "/" + suffix, b + "/" + suffix;
    if x == y {
      assert x[..|a|] == a && y[..|b|] == b;
    }
  }

  lemma OneNameBack(name: string, source: string, base: string)
    ensures MovedName(MovedName(name, source, base), base, source) == name
      <==> Under(name, source) || !Under(name, base)
  {
    if Under(name, source) {
      RenamedBack(name, source, base);
    } else if Under(name, base) && name != base {
      SameSuffix(source, base, name[|base| + 1..]);
      assert name == name[..|base| + 1] + name[|base| + 1..];
    }
  }

  /** Moving back restores every folder exactly when nothing outside the subtree was at or under the new base. */
  lemma MoveAndBack(folders: seq<Folder>, source: string, base: string)
    ensures Moved(Moved(folders, source, base), base, source) == folders <==> NothingInTheWay(folders, source, base)
  {
    var there := Moved(folders, source, base);
    var back := Moved(there, base, source);
    forall i | 0 <= i < |folders|
      ensures back[i] == folders[i] <==> Under(folders[i].name, source) || !Under(folders[i].name, base)
    {
      MovedAt(folders, source, base, i);
      MovedAt(there, base, source, i);
      OneNameBack(folders[i].name, source, base);
    }
    if NothingInTheWay(folders, source, base) {
      assert forall i :: 0 <= i < |folders| ==> back[i] == folders[i];
    } else {
      var i :| 0 <= i < |folders| && !Under(folders[i].name, source) && Under(folders[i].name, base);
      assert back[i] != folders[i];
    }
  }

  // --------------------------------------------------------------- checking a move

  datatype Checked =
    | Accepted(source: string, parent: Option<string>, base: string)
    | EmptySource | IntoItself | NoLastSegment

  function CleanTarget(target: Option<string>): Option<string> {
    if target.Some? && Clean(target.value) != "" then Some(Clean(target.value)) else None
  }

  function LastSegment(path: string): string {
    Segments(path)[|Segments(path)| - 1]
  }

  /** `compute_new_folder_base`. */
  function NewBase(sourcePath: string, target: Option<string>): Checked {
    var source, parent := Clean(sourcePath), CleanTarget(target);
    if source == "" then EmptySource
    else if parent.Some? && (parent.value == source || StartsWith(parent.value, source + "/")) then IntoItself
    else if LastSegment(source) == "" then NoLastSegment
    else
      var last := LastSegment(source);
      Accepted(source, parent, if parent.Some? then parent.value + "/" + last else last)
  }

  lemma EmptyLastPart(parts: seq<string>)
    requires |parts| > 0 && parts[|parts| - 1] == ""
    ensures var path := Join(parts, "/"); path == "" || path[|path| - 1] == '/'
  {
    if |parts| > 1 {
      JoinAppend(parts[..|parts| - 1], "", "/");
      assert parts == parts[..|parts| - 1] + [""];
    }
  }

  /** A path that does not end in a slash has a last segment, so the last error is never returned. */
  lemma LastSegmentNotEmpty(path: string)
    ensures '/' !in LastSegment(path)
    ensures LastSegment(path) == "" ==> path == "" || path[|path| - 1] == '/'
  {
    JoinSplit(path, '/');
    if LastSegment(path) == "" {
      EmptyLastPart(Segments(path));
    }
  }

  lemma BaseSegments(source: string, parent: Option<string>, base: string)
    requires LastSegment(source) != "" && '/' !in LastSegment(source)
    requires base == if parent.Some? then parent.value + "/" + LastSegment(source) else LastSegment(source)
    ensures Segments(base) == (if parent.Some? then Segments(parent.value) else []) + [LastSegment(source)]
  {
    SplitWhole(LastSegment(source), '/');
    if parent.Some? {
      SplitConcat(parent.value, LastSegment(source), '/');
    }
  }

  lemma NotBelowItself(s: seq<string>, parent: seq<string>, last: string)
    requires HasPrefix(parent + [last], s) && |s| <= |parent|
    ensures HasPrefix(parent, s)
  {
    assert (parent + [last])[..|s|] == parent[..|s|];
  }

  /** Every accepted move keeps the folder's own name, and never puts it strictly below itself. */
  lemma AcceptedMove(sourcePath: string, target: Option<string>)
    requires NewBase(sourcePath, target).Accepted?
    ensures var c := NewBase(sourcePath, target);
      && Segments(c.base) == (if c.parent.Some? then Segments(c.parent.value) else []) + [LastSegment(c.source)]
      && !StartsWith(c.base, c.source + "/")
  {
    var c := NewBase(sourcePath, target);
    LastSegmentNotEmpty(c.source);
    BaseSegments(c.source, c.parent, c.base);
    UnderIsSegmentPrefix(c.base, c.source);
    if c.parent.Some? {
      UnderIsSegmentPrefix(c.parent.value, c.source);
    }
    hide Segments, Clean;
    if StartsWith(c.base, c.source + "/") {
      var above := if c.parent.Some? then Segments(c.parent.value) else [];
      NotBelowItself(Segments(c.source), above, LastSegment(c.source));
    }
  }

  /** A move is refused exactly for an empty source, or a target whose segments begin with the source's. */
  lemma RefusedMoves(sourcePath: string, target: Option<string>)
    ensures var source, parent := Clean(sourcePath), CleanTarget(target);
      NewBase(sourcePath, target).Accepted?
      <==> source != "" && (parent.Some? ==> !HasPrefix(Segments(parent.value), Segments(source)))
  {
    var source, parent := Clean(sourcePath), CleanTarget(target);
    if source != "" {
      LastSegmentNotEmpty(source);
    }
    if parent.Some? {
      UnderIsSegmentPrefix(parent.value, source);
    }
  }

  /** `canDropFolderOn`. */
  predicate CanDrop(dragging: Option<string>, target: Option<string>) {
    if dragging.None? || dragging.value == "" then false
    else if target.None? then true
    else if target.value == dragging.value then false
    else if StartsWith(target.value, dragging.value + "/") then false
    else true
  }

  predicate Normal(path: string) {
    Clean(path) == path
  }

  /** The sidebar lets a path be dropped exactly where the move of paths that clean up to it is accepted. */
  lemma DropMatchesMove(dragging: string, target: Option<string>)
    ensures NewBase(dragging, target).Accepted?
      <==> CanDrop(Some(Clean(dragging)), if target.Some? then Some(Clean(target.value)) else None)
    ensures Normal(dragging) && (target.Some? ==> Normal(target.value)) ==>
      (NewBase(dragging, target).Accepted? <==> CanDrop(Some(dragging), target))
  {
    LastSegmentNotEmpty(Clean(dragging));
    assert Clean(dragging) == "" || Clean(dragging)[|Clean(dragging)| - 1] != '/';
    hide Segments, Clean, LastSegment;
  }

  /** `rename_folder_path`. */
  datatype RenameCheck = Rename(source: string, base: string) | Unchanged | EmptyPath | IntoDescendant

  function CheckRename(sourcePath: string, newPath: string): RenameCheck {
    var source, base := Clean(sourcePath), Clean(newPath);
    if source == "" || base == "" then EmptyPath
    else if base == source then Unchanged
    else if StartsWith(base, source + "/") then IntoDescendant
    else Rename(source, base)
  }

  lemma PrefixesCompare(m: seq<string>, s: seq<string>, b: seq<string>)
    requires HasPrefix(m, s) && HasPrefix(m, b)
    ensures HasPrefix(s, b) || HasPrefix(b, s)
  {
    if |b| <= |s| {
      assert s[..|b|] == m[..|s|][..|b|] == m[..|b|];
    } else {
      assert b[..|s|] == m[..|b|][..|s|] == m[..|s|];
    }
  }

  /**
   * A rename is carried out exactly between two non-empty paths of which the new one does not begin with the old
   * one.
   */
  lemma AcceptedRename(sourcePath: string, newPath: string)
    ensures var source, base := Clean(sourcePath), Clean(newPath);
      CheckRename(sourcePath, newPath) == Rename(source, base)
      <==> source != "" && base != "" && !HasPrefix(Segments(base), Segments(source))
  {
    UnderIsSegmentPrefix(Clean(newPath), Clean(sourcePath));
  }

  /** The segments of `path` beyond as many as `above` has. */
  function Beyond(path: string, above: string): seq<string> {
    if |Segments(above)| <= |Segments(path)| then Segments(path)[|Segments(above)|..] else []
  }

  /**
   * What a move or rename not into a descendant leaves at or under the old path: exactly the folders that repeat the
   * rest of that path, when the new path is above it. Renaming `a/b` to `a` turns `a/b/b` into `a/b` again.
   */
  lemma LeftUnderExactly(name: string, source: string, base: string)
    requires Under(name, source) && !StartsWith(base, source + "/")
    ensures Under(Renamed(name, source, base).value, source)
      <==> Under(source, base) && HasPrefix(Beyond(name, source), Beyond(source, base))
  {
    var n := Renamed(name, source, base).value;
    UnderIsSegmentPrefix(name, source);
    RenamedIsPrefixReplacement(name, source, base);
    UnderIsSegmentPrefix(n, source);
    UnderIsSegmentPrefix(source, base);
    UnderIsSegmentPrefix(base, source);
    hide Segments;
    var s, b, rest := Segments(source), Segments(base), Segments(name)[|Segments(source)|..];
    if |s| <= |b| {
      assert HasPrefix(b + rest, s) <==> HasPrefix(b, s) by {
        assert (b + rest)[..|s|] == b[..|s|];
      }
      assert HasPrefix(s, b) ==> s == b;
      if HasPrefix(b, s) {
        assert s == b && s[|b|..] == [];
      }
    } else {
      assert (b + rest)[..|b|] == b && (b + rest)[|b|..] == rest;
      PrefixInTwo(b, rest, s);
    }
  }

  lemma PrefixInTwo(b: seq<string>, rest: seq<string>, s: seq<string>)
    requires |b| < |s|
    ensures HasPrefix(b + rest, s) <==> HasPrefix(s, b) && HasPrefix(rest, s[|b|..])
  {
    if HasPrefix(b + rest, s) {
      assert s[..|b|] == (b + rest)[..|s|][..|b|] == b;
      assert rest[..|s| - |b|] == (b + rest)[..|s|][|b|..];
    }
    if HasPrefix(s, b) && HasPrefix(rest, s[|b|..]) {
      assert (b + rest)[..|s|] == b + rest[..|s| - |b|] == s[..|b|] + s[|b|..] == s;
    }
  }

  /** When neither path lies under the other, nothing is left under the old path afterwards. */
  lemma MovedAway(name: string, source: string, base: string)
    requires Under(name, source) && !Under(base, source) && !Under(source, base)
    ensures !Under(Renamed(name, source, base).value, source)
  {
    var n := Renamed(name, source, base).value;
    RenamedBack(name, source, base);
    UnderIsSegmentPrefix(n, source);
    UnderIsSegmentPrefix(n, base);
    UnderIsSegmentPrefix(base, source);
    UnderIsSegmentPrefix(source, base);
    if HasPrefix(Segments(n), Segments(source)) {
      PrefixesCompare(Segments(n), Segments(source), Segments(base));
    }
  }
}
