/** The read-only projection `getFileTree` of lib/store.ts, stated as
    functions on values: the validity filter, the sort by path, the
    incremental build that walks each path's segments, and the recursive
    level sort the source calls `deduplicateAndSort`. */
module FileTree {
  import opened Paths
  import opened Files

  /** `FileTreeNode`: a folder carries its children, a file carries the
      record it projects. */
  datatype Node =
    | Folder(name: string, path: string, children: seq<Node>)
    | File(name: string, path: string, item: FileItem)

  // ---------------------------------------------------------------- filter

  /** `name.split('.').pop()`: the text after the last dot, or the whole
      name when it has no dot. */
  function Extension(name: string): (ext: string)
    ensures '.' !in ext
    ensures |ext| <= |name| && ext == name[|name| - |ext|..]
    ensures '.' in name ==> |ext| < |name| && name[|name| - |ext| - 1] == '.'
    ensures '.' !in name ==> ext == name
  {
    var pieces := SplitOn(name, '.');
    var n := |pieces|;
    if n == 1 then pieces[0]
    else
      var front := JoinOn(pieces[..n - 1], '.');
      assert pieces[..n - 1][..n - 2] == pieces[..n - 2];
      assert name == front + ['.'] + pieces[n - 1];
      pieces[n - 1]
  }

  /** `lastPart.includes('.')` and a non-empty `lastPart.split('.').pop()`. */
  predicate HasExtension(name: string) {
    '.' in name && Extension(name) != []
  }

  /** `part && part.trim() !== '' && part !== '.' && part !== '..'`. */
  predicate PartOk(part: string) {
    part != [] && Trim(part) != [] && part != "." && part != ".."
  }

  /** The validity filter of `getFileTree`, checked on the trimmed path. */
  predicate IsValidPath(path: string) {
    var trimmed := Trim(path);
    var parts := Segments(trimmed);
    && trimmed != []
    && |parts| > 0
    && HasExtension(parts[|parts| - 1])
    && forall i :: 0 <= i < |parts| ==> PartOk(parts[i])
  }

  /** `s.filter(keep)`: the elements `keep` accepts, in their order. */
  function Filter<T(!new)>(s: seq<T>, keep: T -> bool): (r: seq<T>)
    ensures forall i :: 0 <= i < |r| ==> keep(r[i])
  {
    if s == [] then []
    else if keep(s[|s| - 1]) then Filter(s[..|s| - 1], keep) + [s[|s| - 1]]
    else Filter(s[..|s| - 1], keep)
  }

  /** The filter keeps every accepted element as often as it occurs, and no other. */
  lemma {:induction false} FilterCount<T(!new)>(s: seq<T>, keep: T -> bool)
    ensures forall x :: multiset(Filter(s, keep))[x] == if keep(x) then multiset(s)[x] else 0
  {
    if s != [] {
      var front := s[..|s| - 1];
      FilterCount(front, keep);
      assert s == front + [s[|s| - 1]];
    }
  }

  /** Filtering lists with the same elements gives lists with the same elements. */
  lemma FilterSameElements<T(!new)>(a: seq<T>, b: seq<T>, keep: T -> bool)
    requires multiset(a) == multiset(b)
    ensures multiset(Filter(a, keep)) == multiset(Filter(b, keep))
  {
    FilterCount(a, keep);
    FilterCount(b, keep);
  }

  lemma FilterSubset<T(!new)>(s: seq<T>, keep: T -> bool)
    ensures multiset(Filter(s, keep)) <= multiset(s)
  {
    FilterCount(s, keep);
  }

  predicate IsValidItem(f: FileItem) {
    IsValidPath(f.path)
  }

  /** `files.filter(...)` with the validity filter. */
  function ValidFiles(files: seq<FileItem>): seq<FileItem> {
    Filter(files, IsValidItem)
  }

  // ----------------------------------------------------------------- sorting

  /** One step of a stable insertion sort under the strict order `less`:
      `x` goes after every element it does not precede. */
  function InsertBy<T(!new)>(sorted: seq<T>, x: T, less: (T, T) -> bool): (r: seq<T>)
    ensures multiset(r) == multiset(sorted) + multiset{x}
  {
    if sorted == [] then [x]
    else if less(x, sorted[0]) then [x] + sorted
    else
      assert sorted == [sorted[0]] + sorted[1..];
      [sorted[0]] + InsertBy(sorted[1..], x, less)
  }

  /** `Array.prototype.sort` with the comparator `less`, which the language
      requires to be stable. */
  function SortBy<T(!new)>(s: seq<T>, less: (T, T) -> bool): (r: seq<T>)
    ensures multiset(r) == multiset(s)
  {
    if s == [] then []
    else
      assert s == s[..|s| - 1] + [s[|s| - 1]];
      InsertBy(SortBy(s[..|s| - 1], less), s[|s| - 1], less)
  }

  /** No element precedes an earlier one. */
  predicate SortedBy<T>(s: seq<T>, less: (T, T) -> bool) {
    forall i, j :: 0 <= i < j < |s| ==> !less(s[j], s[i])
  }

  ghost predicate StrictOrder<T(!new)>(less: (T, T) -> bool) {
    && (forall a :: !less(a, a))
    && (forall a, b, c :: less(a, b) && less(b, c) ==> less(a, c))
  }

  lemma {:induction false} InsertBySorted<T(!new)>(sorted: seq<T>, x: T, less: (T, T) -> bool)
    requires StrictOrder(less) && SortedBy(sorted, less)
    ensures SortedBy(InsertBy(sorted, x, less), less)
  {
    if sorted == [] {
    } else if less(x, sorted[0]) {
      var r := [x] + sorted;
      assert forall j :: 1 <= j < |r| ==> r[j] == sorted[j - 1];
    } else {
      var rest := InsertBy(sorted[1..], x, less);
      InsertBySorted(sorted[1..], x, less);
      var r := [sorted[0]] + rest;
      forall j | 0 <= j < |rest| ensures !less(rest[j], sorted[0]) {
        assert rest[j] in multiset(rest);
        assert rest[j] == x || rest[j] in sorted[1..];
      }
      assert forall j :: 1 <= j < |r| ==> r[j] == rest[j - 1];
    }
  }

  lemma {:induction false} SortBySorted<T(!new)>(s: seq<T>, less: (T, T) -> bool)
    requires StrictOrder(less)
    ensures SortedBy(SortBy(s, less), less)
  {
    if s != [] {
      SortBySorted(s[..|s| - 1], less);
      InsertBySorted(SortBy(s[..|s| - 1], less), s[|s| - 1], less);
    }
  }

  /** The comparator of the sort by path. */
  predicate PathLess(a: FileItem, b: FileItem) {
    StrLess(a.path, b.path)
  }

  lemma PathLessStrict()
    ensures StrictOrder(PathLess)
  {
    forall a: FileItem ensures !PathLess(a, a) {
      StrLessIrreflexive(a.path);
    }
    forall a: FileItem, b: FileItem, c: FileItem | PathLess(a, b) && PathLess(b, c) ensures PathLess(a, c) {
      StrLessTransitive(a.path, b.path, c.path);
    }
  }

  /** `[...validFiles].sort((a, b) => a.path.localeCompare(b.path))`. */
  function SortByPath(s: seq<FileItem>): seq<FileItem> {
    SortBy(s, PathLess)
  }

  // ------------------------------------------------------------- tree build

  /** `currentLevel.find((n) => n.type === 'file' && n.path === path)`: the
      index of the first match, or `|level|` when there is none. */
  function FindFile(level: seq<Node>, path: string): (k: nat)
    ensures k <= |level|
    ensures k < |level| ==> level[k].File? && level[k].path == path
    ensures forall i :: 0 <= i < k ==> !(level[i].File? && level[i].path == path)
  {
    if level == [] then 0
    else if level[0].File? && level[0].path == path then 0
    else 1 + FindFile(level[1..], path)
  }

  /** `currentLevel.find((n) => n.type === 'folder' && n.path === path)`. */
  function FindFolder(level: seq<Node>, path: string): (k: nat)
    ensures k <= |level|
    ensures k < |level| ==> level[k].Folder? && level[k].path == path
    ensures forall i :: 0 <= i < k ==> !(level[i].Folder? && level[i].path == path)
  {
    if level == [] then 0
    else if level[0].Folder? && level[0].path == path then 0
    else 1 + FindFolder(level[1..], path)
  }

  /** The effect of walking one file's `parts` (lib/store.ts:117-155) on the
      level reached by the segments `pre`: reuse or create the folder for each
      non-final segment and descend into it; at the final segment, point an
      existing file node at `item` or append a new one. */
  function Insert(level: seq<Node>, parts: seq<string>, pre: seq<string>, item: FileItem): seq<Node>
    decreases |parts|
  {
    if parts == [] then level
    else
      var path := PathOf(pre + [parts[0]]);
      if |parts| == 1 then
        var k := FindFile(level, path);
        if k < |level| then level[k := level[k].(item := item)]
        else level + [File(parts[0], path, item)]
      else
        var k := FindFolder(level, path);
        var folder := if k < |level| then level[k] else Folder(parts[0], path, []);
        var grown := folder.(children := Insert(folder.children, parts[1..], pre + [parts[0]], item));
        if k < |level| then level[k := grown] else level + [grown]
  }

  /** The segments the tree is built from: those of the trimmed path. */
  function NodeParts(path: string): seq<string> {
    Segments(Trim(path))
  }

  /** The full path of the file node built for `path`. */
  function NodePath(path: string): string {
    PathOf(NodeParts(path))
  }

  /** The forest after inserting every file in order, each from the segments
      of its trimmed path: the build `sortedFiles.forEach(...)` evidently
      intends, since the filter judged the trimmed path. */
  function Build(sorted: seq<FileItem>): seq<Node> {
    if sorted == [] then []
    else
      var f := sorted[|sorted| - 1];
      Insert(Build(sorted[..|sorted| - 1]), NodeParts(f.path), [], f)
  }

  /** `sortedFiles.forEach(...)` as lib/store.ts:116 writes it: each file
      inserted from the segments of its untrimmed path, while the filter
      judged the trimmed one. */
  function BuildAsWritten(sorted: seq<FileItem>): seq<Node> {
    if sorted == [] then []
    else
      var f := sorted[|sorted| - 1];
      Insert(BuildAsWritten(sorted[..|sorted| - 1]), Segments(f.path), [], f)
  }

  // ------------------------------------------------------------ level sort

  /** The comparator of `deduplicateAndSort`: folders first, then by name. */
  predicate NodeLess(a: Node, b: Node) {
    if a.Folder? != b.Folder? then a.Folder? else StrLess(a.name, b.name)
  }

  lemma NodeLessStrict()
    ensures StrictOrder(NodeLess)
  {
    forall a: Node ensures !NodeLess(a, a) {
      StrLessIrreflexive(a.name);
    }
    forall a: Node, b: Node, c: Node | NodeLess(a, b) && NodeLess(b, c) ensures NodeLess(a, c) {
      if a.Folder? == b.Folder? && b.Folder? == c.Folder? {
        StrLessTransitive(a.name, b.name, c.name);
      }
    }
  }

  /** `nodes.sort(...)` with the folder-first, by-name comparator. */
  function SortLevel(s: seq<Node>): seq<Node> {
    SortBy(s, NodeLess)
  }

  /** `deduplicateAndSort`: sort the level, then do the same to every
      folder's children. It merges and drops nothing. */
  function Arrange(nodes: seq<Node>): seq<Node>
    decreases nodes
  {
    var sorted := SortLevel(nodes);
    seq(|sorted|, i requires 0 <= i < |sorted| =>
      assert sorted[i] in multiset(nodes);
      ArrangeNode(sorted[i]))
  }

  function ArrangeNode(n: Node): Node
    decreases n
  {
    match n
    case Folder(name, path, children) => Folder(name, path, Arrange(children))
    case File(_, _, _) => n
  }

  /** `getFileTree()` on the list `files`, with the tree built from the
      trimmed paths the filter judged. */
  function FileTreeOf(files: seq<FileItem>): seq<Node> {
    Arrange(Build(SortByPath(ValidFiles(files))))
  }

  /** `getFileTree()` on the list `files` as lib/store.ts writes it, with the
      tree built from the untrimmed paths. */
  function FileTreeAsWritten(files: seq<FileItem>): seq<Node> {
    Arrange(BuildAsWritten(SortByPath(ValidFiles(files))))
  }
}
