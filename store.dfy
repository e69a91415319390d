/** `useInfraStore` of lib/store.ts: the list of file records the agent
    writes, the selected file and the set of expanded folders, with the
    actions that change them and the tree view `getFileTree` derives. */
module Store {
  import opened Paths
  import opened Files
  import opened FileTree
  import opened TreeFacts
  import opened TreeTheorems
  import opened TreeBuilder

  /** The paths `PathOf(parts[..j])` for `1 <= j <= n`: the folders walked
      through after `n` segments. */
  function PrefixPaths(parts: seq<string>, n: nat): set<string>
    requires n <= |parts|
  {
    if n == 0 then {} else PrefixPaths(parts, n - 1) + {PathOf(parts[..n])}
  }

  /** The folders above the last segment of `parts`, which `createFile`
      expands. */
  function FolderPaths(parts: seq<string>): set<string> {
    if parts == [] then {} else PrefixPaths(parts, |parts| - 1)
  }

  /** Every expanded folder is an ancestor of the new file: its segments are
      a non-empty proper prefix of the file's. */
  lemma {:induction false} PrefixPathsAncestors(parts: seq<string>, n: nat, q: string)
    requires n <= |parts| && AllSegments(parts) && q in PrefixPaths(parts, n)
    ensures 0 < |Segments(q)| <= n && Segments(q) == parts[..|Segments(q)|]
  {
    if q == PathOf(parts[..n]) {
      SegmentsOfPath(parts[..n]);
    } else {
      PrefixPathsAncestors(parts, n - 1, q);
    }
  }

  /** Every non-empty proper prefix of the segments is expanded, once each. */
  lemma {:induction false} PrefixPathsCount(parts: seq<string>, n: nat)
    requires n <= |parts| && AllSegments(parts)
    ensures |PrefixPaths(parts, n)| == n
    ensures forall j :: 1 <= j <= n ==> PathOf(parts[..j]) in PrefixPaths(parts, n)
  {
    if n > 0 {
      PrefixPathsCount(parts, n - 1);
      if PathOf(parts[..n]) in PrefixPaths(parts, n - 1) {
        PrefixPathsAncestors(parts, n - 1, PathOf(parts[..n]));
        SegmentsOfPath(parts[..n]);
        assert false;
      }
    }
  }

  /** `createFile` expands one folder per segment above the file, each path
      the segments spell up to there. */
  lemma FolderPathsCount(parts: seq<string>)
    requires AllSegments(parts)
    ensures |FolderPaths(parts)| == if parts == [] then 0 else |parts| - 1
    ensures forall j :: 1 <= j < |parts| ==> PathOf(parts[..j]) in FolderPaths(parts)
  {
    if parts != [] {
      PrefixPathsCount(parts, |parts| - 1);
    }
  }

  /** Every folder `createFile` expands lies above the file. */
  lemma FolderPathsAncestors(parts: seq<string>)
    requires AllSegments(parts)
    ensures forall q :: q in FolderPaths(parts) ==>
              0 < |Segments(q)| < |parts| && Segments(q) == parts[..|Segments(q)|]
  {
    forall q | q in FolderPaths(parts) ensures 0 < |Segments(q)| < |parts| && Segments(q) == parts[..|Segments(q)|] {
      PrefixPathsAncestors(parts, |parts| - 1, q);
    }
  }

  /** `toggleFolder`: the set with `x` removed if present and added if not. */
  function Toggled(s: set<string>, x: string): (r: set<string>)
    ensures x in r <==> x !in s
    ensures forall y :: y != x ==> (y in r <==> y in s)
  {
    if x in s then s - {x} else s + {x}
  }

  /** Toggling a folder twice restores the set of expanded folders. */
  lemma ToggledTwice(s: set<string>, x: string)
    ensures Toggled(Toggled(s, x), x) == s
  {
  }

  /** Every stored path is trimmed: `createFile` stores `path.trim()`. */
  predicate AllTrimmed(files: seq<FileItem>) {
    forall i :: 0 <= i < |files| ==> IsTrimmed(files[i].path)
  }

  /** Neither update changes a path, so stored paths stay trimmed. */
  lemma UpdatesKeepTrimmed(files: seq<FileItem>, path: string, content: string, now: int)
    requires AllTrimmed(files)
    ensures AllTrimmed(Streamed(files, path, content, now))
    ensures AllTrimmed(Completed(files, path, now))
  {
    var s := Streamed(files, path, content, now);
    var c := Completed(files, path, now);
    assert forall i :: 0 <= i < |files| ==> s[i].path == files[i].path && c[i].path == files[i].path;
  }

  /** On trimmed paths, splitting the path as written and splitting its
      trimmed form agree, so the view the source computes is the one the
      model computes. */
  lemma {:induction false} TrimmedBuildAgrees(s: seq<FileItem>)
    requires AllTrimmed(s)
    ensures BuildAsWritten(s) == Build(s)
  {
    if s != [] {
      var front := s[..|s| - 1];
      assert AllTrimmed(front) by {
        assert forall i :: 0 <= i < |front| ==> front[i] == s[i];
      }
      TrimmedBuildAgrees(front);
      TrimmedIsFixed(s[|s| - 1].path);
    }
  }

  /** On a store whose paths are trimmed, as `createFile` keeps them, the view
      the source computes is the one built from the trimmed paths. */
  lemma StoreViewAsWritten(files: seq<FileItem>)
    requires AllTrimmed(files)
    ensures FileTreeAsWritten(files) == FileTreeOf(files)
  {
    var sorted := SortByPath(ValidFiles(files));
    SortedValid(files);
    forall i | 0 <= i < |sorted| ensures IsTrimmed(sorted[i].path) {
      var j :| 0 <= j < |files| && files[j] == sorted[i];
    }
    TrimmedBuildAgrees(sorted);
  }

  /** A file created at a path the filter accepts shows in the tree, at the
      node path of its segments, and is the only record there. */
  lemma CreatedFileShows(files: seq<FileItem>, p: string, now: int)
    requires IsValidPath(p)
    ensures var after := files + [NewItem(p, now)];
            ItemsAt(FileTreeOf(after), NodePath(p)) != multiset{}
            && |ItemsAt(FileTreeOf(after), NodePath(p))| <= 1
  {
    var after := files + [NewItem(p, now)];
    assert after[|files|].path == p;
    FileTreeHasFile(after, NodePath(p));
  }

  /** Appending a record for a trimmed path no record has keeps the paths
      unique and trimmed. */
  lemma AppendKeepsValid(files: seq<FileItem>, p: string, now: int)
    ensures UniquePaths(files) && AllTrimmed(files) && !HasPath(files, p) && IsTrimmed(p) ==>
              UniquePaths(files + [NewItem(p, now)]) && AllTrimmed(files + [NewItem(p, now)])
  {
    var after := files + [NewItem(p, now)];
    assert forall i :: 0 <= i < |files| ==> after[i] == files[i];
  }

  /** The loop of `createFile` (lib/store.ts:47-53): add the path of every
      folder above the last segment to a copy of the expanded set. */
  method Expand(expanded: set<string>, parts: seq<string>) returns (newExpanded: set<string>)
    ensures newExpanded == expanded + FolderPaths(parts)
  {
    newExpanded := expanded;
    var currentPath: string := "";
    var i := 0;
    while i + 1 < |parts|
      invariant i == 0 || i < |parts|
      invariant currentPath == PathOf(parts[..i])
      invariant newExpanded == expanded + PrefixPaths(parts, i)
    {
      PathNext(parts, i);
      currentPath := if currentPath == "" then parts[i] else currentPath + "/" + parts[i];
      newExpanded := newExpanded + {currentPath};
      i := i + 1;
    }
  }

  class InfraStore {
    var files: seq<FileItem>
    var selected: Option<string>
    var expanded: set<string>

    /** What the actions keep when they start from it: record paths are
        unique and trimmed. */
    predicate Valid()
      reads this
    {
      UniquePaths(files) && AllTrimmed(files)
    }

    /** The initial state: no records, nothing selected, nothing expanded. */
    constructor ()
      ensures files == [] && selected == None && expanded == {}
      ensures Valid()
    {
      files := [];
      selected := None;
      expanded := {};
    }

    /** `createFile`: store the trimmed path as a new empty record, select
        it, and expand every folder above it; do nothing for a blank path or
        one already stored. */
    method CreateFile(path: string, now: int)
      modifies this
      ensures var p := Trim(path);
              if p == [] || HasPath(old(files), p) then
                files == old(files) && selected == old(selected) && expanded == old(expanded)
              else
                && files == old(files) + [NewItem(p, now)]
                && selected == Some(p)
                && expanded == old(expanded) + FolderPaths(Segments(p))
      ensures old(Valid()) ==> Valid()
    {
      var normalizedPath := Trim(path);
      if normalizedPath == [] || HasPath(files, normalizedPath) {
        return;
      }
      AddNew(normalizedPath, now);
    }

    /** The part of `createFile` that runs for a fresh, trimmed path. */
    method AddNew(p: string, now: int)
      requires IsTrimmed(p) && !HasPath(files, p)
      modifies this
      ensures files == old(files) + [NewItem(p, now)]
      ensures selected == Some(p)
      ensures expanded == old(expanded) + FolderPaths(Segments(p))
      ensures old(Valid()) ==> Valid()
    {
      var newExpanded := Expand(expanded, Segments(p));
      AppendKeepsValid(files, p, now);
      files := files + [NewItem(p, now)];
      selected := Some(p);
      expanded := newExpanded;
    }

    /** `streamContent`: every record at `path` gets `content` and `Writing`. */
    method StreamContent(path: string, content: string, now: int)
      modifies this
      ensures files == Streamed(old(files), path, content, now)
      ensures selected == old(selected) && expanded == old(expanded)
      ensures old(Valid()) ==> Valid()
    {
      if Valid() {
        UpdatesKeepPaths(files, path, content, now);
        UpdatesKeepTrimmed(files, path, content, now);
      }
      files := Streamed(files, path, content, now);
    }

    /** `completeFile`: every record at `path` becomes `Complete`. */
    method CompleteFile(path: string, now: int)
      modifies this
      ensures files == Completed(old(files), path, now)
      ensures selected == old(selected) && expanded == old(expanded)
      ensures old(Valid()) ==> Valid()
    {
      if Valid() {
        UpdatesKeepPaths(files, path, [], now);
        UpdatesKeepTrimmed(files, path, [], now);
      }
      files := Completed(files, path, now);
    }

    /** `selectFile`: select `path` as given, stored or not. */
    method SelectFile(path: string)
      modifies this
      ensures selected == Some(path)
      ensures files == old(files) && expanded == old(expanded)
    {
      selected := Some(path);
    }

    /** `toggleFolder`: collapse an expanded folder, expand a collapsed one. */
    method ToggleFolder(folderPath: string)
      modifies this
      ensures expanded == Toggled(old(expanded), folderPath)
      ensures files == old(files) && selected == old(selected)
    {
      expanded := Toggled(expanded, folderPath);
    }

    /** `resetStore`: back to the initial state. */
    method ResetStore()
      modifies this
      ensures files == [] && selected == None && expanded == {}
      ensures Valid()
    {
      files := [];
      selected := None;
      expanded := {};
    }

    /** `getFileTree`: filter the records, sort them by path, build the
        forest from the untrimmed paths and arrange every level. On a store
        the actions keep valid, that is the tree of the trimmed paths. */
    method GetFileTree() returns (tree: seq<Node>)
      ensures tree == FileTreeAsWritten(files)
      ensures Valid() ==> tree == FileTreeOf(files)
    {
      var validFiles := Filter(files, IsValidItem);
      var sortedFiles := SortByPath(validFiles);
      var built := BuildForest(sortedFiles);
      tree := Arrange(built);
      if Valid() {
        StoreViewAsWritten(files);
      }
    }
  }
}
