/** What `getFileTree` guarantees about the forest it returns: every level
    is consistent with the segments that lead to it and holds no two nodes of
    the same kind and path, every path carries the one record that wins the
    stable sort, names are valid, and every level is ordered. */
module TreeFacts {
  import opened Paths
  import opened Files
  import opened FileTree

  // ------------------------------------------------------- items per path

  /** The records of all file nodes anywhere in `level` whose path is `p`. */
  function ItemsAt(level: seq<Node>, p: string): multiset<FileItem>
    decreases level
  {
    if level == [] then multiset{} else NodeItems(level[0], p) + ItemsAt(level[1..], p)
  }

  function NodeItems(n: Node, p: string): multiset<FileItem>
    decreases n
  {
    match n
    case File(_, path, item) => if path == p then multiset{item} else multiset{}
    case Folder(_, _, children) => ItemsAt(children, p)
  }

  lemma {:induction false} ItemsAtAppend(a: seq<Node>, b: seq<Node>, p: string)
    ensures ItemsAt(a + b, p) == ItemsAt(a, p) + ItemsAt(b, p)
  {
    if a == [] {
      assert a + b == b;
    } else {
      assert (a + b)[1..] == a[1..] + b;
      ItemsAtAppend(a[1..], b, p);
    }
  }

  lemma ItemsAtSplit(s: seq<Node>, k: nat, p: string)
    requires k < |s|
    ensures ItemsAt(s, p) == ItemsAt(s[..k], p) + NodeItems(s[k], p) + ItemsAt(s[k + 1..], p)
  {
    assert s == s[..k] + ([s[k]] + s[k + 1..]);
    ItemsAtAppend(s[..k], [s[k]] + s[k + 1..], p);
    assert ([s[k]] + s[k + 1..])[1..] == s[k + 1..];
  }

  /** When every node but the one at `k` (none, for `k == |s|`) is empty at
      `p`, the level holds exactly that node's records at `p`. */
  lemma {:induction false} ItemsAtOnly(s: seq<Node>, k: nat, p: string)
    requires k <= |s|
    requires forall i :: 0 <= i < |s| && i != k ==> NodeItems(s[i], p) == multiset{}
    ensures ItemsAt(s, p) == if k < |s| then NodeItems(s[k], p) else multiset{}
  {
    if s != [] {
      if k == 0 {
        ItemsAtOnly(s[1..], |s| - 1, p);
      } else {
        ItemsAtOnly(s[1..], k - 1, p);
      }
    }
  }

  /** Levels that agree node by node at `p` agree at `p`. */
  lemma {:induction false} ItemsAtPointwise(a: seq<Node>, b: seq<Node>, p: string)
    requires |a| == |b|
    requires forall i :: 0 <= i < |a| ==> NodeItems(a[i], p) == NodeItems(b[i], p)
    ensures ItemsAt(a, p) == ItemsAt(b, p)
  {
    if a != [] {
      ItemsAtPointwise(a[1..], b[1..], p);
    }
  }

  // ------------------------------------------------------- well-formedness

  /** Two nodes of the same kind at the same path. */
  predicate SameKey(a: Node, b: Node) {
    a.Folder? == b.Folder? && a.path == b.path
  }

  /** No two nodes of a level share kind and path. */
  predicate Distinct(level: seq<Node>) {
    forall i, j :: 0 <= i < j < |level| ==> !SameKey(level[i], level[j])
  }

  /** A node reached by the segments `pre`: its name is a segment and its path
      is `pre` extended by that name; a folder's children are reached by that
      path in turn. */
  predicate NodeOk(n: Node, pre: seq<string>)
    decreases n
  {
    && IsSegment(n.name)
    && n.path == PathOf(pre + [n.name])
    && (n.Folder? ==> LevelOk(n.children, pre + [n.name]))
  }

  predicate LevelOk(level: seq<Node>, pre: seq<string>)
    decreases level
  {
    Distinct(level) && forall i :: 0 <= i < |level| ==> NodeOk(level[i], pre)
  }

  /** Distinct segment sequences accumulate to distinct paths. */
  lemma PathOfDiffer(a: seq<string>, b: seq<string>)
    requires AllSegments(a) && AllSegments(b) && a != b
    ensures PathOf(a) != PathOf(b)
  {
    SegmentsOfPath(a);
    SegmentsOfPath(b);
  }

  /** Below a level reached by `pre`, only paths that properly extend `pre`
      carry records. */
  lemma {:induction false} LevelEmpty(level: seq<Node>, pre: seq<string>, k: seq<string>)
    requires LevelOk(level, pre) && AllSegments(pre) && AllSegments(k)
    requires !(|k| > |pre| && k[..|pre|] == pre)
    ensures ItemsAt(level, PathOf(k)) == multiset{}
    decreases level
  {
    if level != [] {
      NodeEmpty(level[0], pre, k);
      LevelEmpty(level[1..], pre, k);
    }
  }

  lemma {:induction false} NodeEmpty(n: Node, pre: seq<string>, k: seq<string>)
    requires NodeOk(n, pre) && AllSegments(pre) && AllSegments(k)
    requires !(|k| > |pre| && k[..|pre|] == pre)
    ensures NodeItems(n, PathOf(k)) == multiset{}
    decreases n
  {
    var q := pre + [n.name];
    assert AllSegments(q);
    assert q[..|pre|] == pre;
    if n.File? {
      PathOfDiffer(q, k);
    } else {
      LevelEmpty(n.children, q, k);
    }
  }

  /** At a level reached by `pre`, the path of `k` (which extends `pre`) can
      carry records only below the node whose path is that of `k`'s next
      prefix and which is a file exactly when `k` ends there. */
  lemma NodeEmptyUnlessOwner(n: Node, pre: seq<string>, k: seq<string>)
    requires NodeOk(n, pre) && AllSegments(pre) && AllSegments(k)
    requires |k| > |pre| && k[..|pre|] == pre
    requires !(n.path == PathOf(k[..|pre| + 1]) && n.File? == (|k| == |pre| + 1))
    ensures NodeItems(n, PathOf(k)) == multiset{}
  {
    var q := pre + [n.name];
    assert AllSegments(q);
    if n.File? {
      if |k| == |pre| + 1 {
        assert k[..|pre| + 1] == k;
      } else {
        PathOfDiffer(q, k);
      }
    } else {
      assert |k| > |q| ==> k[..|q|] != q;
      LevelEmpty(n.children, q, k);
    }
  }

  // --------------------------------------------------------- one insertion

  /** The final segment keeps the level well formed. */
  lemma InsertOkLeaf(level: seq<Node>, parts: seq<string>, pre: seq<string>, item: FileItem)
    requires LevelOk(level, pre) && AllSegments(pre) && AllSegments(parts) && |parts| == 1
    ensures LevelOk(Insert(level, parts, pre, item), pre)
  {
    var path := PathOf(pre + [parts[0]]);
    var r := Insert(level, parts, pre, item);
    var k := FindFile(level, path);
    if k < |level| {
      assert forall i :: 0 <= i < |r| ==> r[i].name == level[i].name && SameKey(r[i], level[i]);
      assert forall i :: 0 <= i < |r| ==> NodeOk(r[i], pre);
    } else {
      assert forall i :: 0 <= i < |level| ==> r[i] == level[i];
    }
  }

  /** A folder segment keeps the level well formed when the walk below it does. */
  lemma InsertOkFolder(level: seq<Node>, parts: seq<string>, pre: seq<string>, item: FileItem)
    requires LevelOk(level, pre) && AllSegments(pre) && AllSegments(parts) && |parts| > 1
    requires LevelOk(Insert(FolderFor(level, parts, pre).children, parts[1..], pre + [parts[0]], item), pre + [parts[0]])
    ensures LevelOk(Insert(level, parts, pre, item), pre)
  {
    var path := PathOf(pre + [parts[0]]);
    var r := Insert(level, parts, pre, item);
    var k := FindFolder(level, path);
    FolderForOk(level, parts, pre);
    if k < |level| {
      assert forall i :: 0 <= i < |r| ==> r[i].name == level[i].name && SameKey(r[i], level[i]);
      assert forall i :: 0 <= i < |r| ==> NodeOk(r[i], pre);
    } else {
      assert forall i :: 0 <= i < |level| ==> r[i] == level[i];
    }
  }

  /** Walking one file's segments keeps the level well formed. */
  lemma {:induction false} InsertOk(level: seq<Node>, parts: seq<string>, pre: seq<string>, item: FileItem)
    requires LevelOk(level, pre) && AllSegments(pre) && AllSegments(parts)
    ensures LevelOk(Insert(level, parts, pre, item), pre)
    decreases |parts|
  {
    if |parts| == 1 {
      InsertOkLeaf(level, parts, pre, item);
    } else if |parts| > 1 {
      var q := pre + [parts[0]];
      assert AllSegments(q);
      FolderForOk(level, parts, pre);
      InsertOk(FolderFor(level, parts, pre).children, parts[1..], q, item);
      InsertOkFolder(level, parts, pre, item);
    }
  }

  /** The folder the walk enters at segment `parts[0]`: the existing one at
      that path, or a new empty one. */
  function FolderFor(level: seq<Node>, parts: seq<string>, pre: seq<string>): Node
    requires parts != []
  {
    var path := PathOf(pre + [parts[0]]);
    var k := FindFolder(level, path);
    if k < |level| then level[k] else Folder(parts[0], path, [])
  }

  /** The folder entered is well formed below the segments `pre + [parts[0]]`,
      and an existing one is named `parts[0]`. */
  lemma FolderForOk(level: seq<Node>, parts: seq<string>, pre: seq<string>)
    requires LevelOk(level, pre) && AllSegments(pre) && AllSegments(parts) && parts != []
    ensures LevelOk(FolderFor(level, parts, pre).children, pre + [parts[0]])
    ensures FindFolder(level, PathOf(pre + [parts[0]])) < |level| ==>
              level[FindFolder(level, PathOf(pre + [parts[0]]))].name == parts[0]
  {
    var q := pre + [parts[0]];
    var k := FindFolder(level, PathOf(q));
    assert AllSegments(q);
    if k < |level| {
      PathOfInjective(pre + [level[k].name], q);
      assert level[k].name == parts[0] by {
        assert (pre + [level[k].name])[|pre|] == q[|pre|];
      }
    }
  }

  /** The final segment: the file node at its path now holds `item`, and no
      other path changes. */
  lemma InsertItemsLeaf(level: seq<Node>, parts: seq<string>, pre: seq<string>, item: FileItem, p: string)
    requires LevelOk(level, pre) && AllSegments(pre) && AllSegments(parts) && |parts| == 1
    ensures ItemsAt(Insert(level, parts, pre, item), p) ==
              if p == PathOf(pre + parts) then multiset{item} else ItemsAt(level, p)
  {
    var key := pre + parts;
    var path := PathOf(key);
    var r := Insert(level, parts, pre, item);
    assert AllSegments(key) && key[..|pre|] == pre && key[..|pre| + 1] == key;
    var k := FindFile(level, path);
    if k < |level| {
      if p == path {
        forall i | 0 <= i < |r| && i != k ensures NodeItems(r[i], p) == multiset{} {
          assert !SameKey(level[i], level[k]);
          NodeEmptyUnlessOwner(level[i], pre, key);
        }
        ItemsAtOnly(r, k, p);
      } else {
        ItemsAtSplit(level, k, p);
        ItemsAtSplit(r, k, p);
        assert r[..k] == level[..k] && r[k + 1..] == level[k + 1..];
      }
    } else {
      ItemsAtAppend(level, [File(parts[0], path, item)], p);
      if p == path {
        forall i | 0 <= i < |level| ensures NodeItems(level[i], p) == multiset{} {
          NodeEmptyUnlessOwner(level[i], pre, key);
        }
        ItemsAtOnly(level, |level|, p);
      }
    }
  }

  /** A folder segment whose folder exists: the walk below it is what the
      level sees. */
  lemma InsertItemsReuse(level: seq<Node>, parts: seq<string>, pre: seq<string>, item: FileItem, p: string)
    requires LevelOk(level, pre) && AllSegments(pre) && AllSegments(parts) && |parts| > 1
    requires var folder := FolderFor(level, parts, pre);
             ItemsAt(Insert(folder.children, parts[1..], pre + [parts[0]], item), p) ==
               if p == PathOf(pre + parts) then multiset{item} else ItemsAt(folder.children, p)
    requires FindFolder(level, PathOf(pre + [parts[0]])) < |level|
    ensures ItemsAt(Insert(level, parts, pre, item), p) ==
              if p == PathOf(pre + parts) then multiset{item} else ItemsAt(level, p)
  {
    var q := pre + [parts[0]];
    var key := pre + parts;
    var r := Insert(level, parts, pre, item);
    assert AllSegments(key) && key[..|pre|] == pre && key[..|pre| + 1] == q;
    var k := FindFolder(level, PathOf(q));
    var folder := FolderFor(level, parts, pre);
    FolderForOk(level, parts, pre);
    var grown := folder.(children := Insert(folder.children, parts[1..], q, item));
    assert r == level[k := grown];
    if p == PathOf(key) {
      forall i | 0 <= i < |r| && i != k ensures NodeItems(r[i], p) == multiset{} {
        assert !SameKey(level[i], level[k]);
        NodeEmptyUnlessOwner(level[i], pre, key);
      }
      ItemsAtOnly(r, k, p);
    } else {
      ItemsAtSplit(level, k, p);
      ItemsAtSplit(r, k, p);
      assert r[..k] == level[..k] && r[k + 1..] == level[k + 1..];
    }
  }

  /** A folder segment whose folder is new: the walk below it is what the
      level sees. */
  lemma InsertItemsCreate(level: seq<Node>, parts: seq<string>, pre: seq<string>, item: FileItem, p: string)
    requires LevelOk(level, pre) && AllSegments(pre) && AllSegments(parts) && |parts| > 1
    requires FindFolder(level, PathOf(pre + [parts[0]])) == |level|
    requires ItemsAt(Insert([], parts[1..], pre + [parts[0]], item), p) ==
               if p == PathOf(pre + parts) then multiset{item} else multiset{}
    ensures ItemsAt(Insert(level, parts, pre, item), p) ==
              if p == PathOf(pre + parts) then multiset{item} else ItemsAt(level, p)
  {
    var q := pre + [parts[0]];
    var key := pre + parts;
    var grown := Folder(parts[0], PathOf(q), Insert([], parts[1..], q, item));
    assert Insert(level, parts, pre, item) == level + [grown];
    ItemsAtAppend(level, [grown], p);
    if p == PathOf(key) {
      assert AllSegments(key) && key[..|pre|] == pre && key[..|pre| + 1] == q;
      forall i | 0 <= i < |level| ensures NodeItems(level[i], p) == multiset{} {
        NodeEmptyUnlessOwner(level[i], pre, key);
      }
      ItemsAtOnly(level, |level|, p);
    }
  }

  /** A folder segment: what the walk below the folder does is what the
      level sees. */
  lemma InsertItemsFolder(level: seq<Node>, parts: seq<string>, pre: seq<string>, item: FileItem, p: string)
    requires LevelOk(level, pre) && AllSegments(pre) && AllSegments(parts) && |parts| > 1
    requires var folder := FolderFor(level, parts, pre);
             ItemsAt(Insert(folder.children, parts[1..], pre + [parts[0]], item), p) ==
               if p == PathOf(pre + parts) then multiset{item} else ItemsAt(folder.children, p)
    ensures ItemsAt(Insert(level, parts, pre, item), p) ==
              if p == PathOf(pre + parts) then multiset{item} else ItemsAt(level, p)
  {
    if FindFolder(level, PathOf(pre + [parts[0]])) < |level| {
      InsertItemsReuse(level, parts, pre, item, p);
    } else {
      InsertItemsCreate(level, parts, pre, item, p);
    }
  }

  /** Walking one file's segments puts its record, and only it, at the path the
      segments spell, and leaves every other path as it was. */
  lemma {:induction false} InsertItems(level: seq<Node>, parts: seq<string>, pre: seq<string>, item: FileItem, p: string)
    requires LevelOk(level, pre) && AllSegments(pre) && AllSegments(parts) && parts != []
    ensures ItemsAt(Insert(level, parts, pre, item), p) ==
              if p == PathOf(pre + parts) then multiset{item} else ItemsAt(level, p)
    decreases |parts|
  {
    if |parts| == 1 {
      InsertItemsLeaf(level, parts, pre, item, p);
    } else {
      var q := pre + [parts[0]];
      assert AllSegments(q) && q + parts[1..] == pre + parts;
      FolderForOk(level, parts, pre);
      InsertItems(FolderFor(level, parts, pre).children, parts[1..], q, item, p);
      InsertItemsFolder(level, parts, pre, item, p);
    }
  }

  // ------------------------------------------------------------ whole build

  /** The last element of `s` that `keep` accepts. */
  function LastMatch<T(!new)>(s: seq<T>, keep: T -> bool): (r: Option<T>)
    ensures r.Some? ==> r.value in s && keep(r.value)
    ensures r.None? <==> forall i :: 0 <= i < |s| ==> !keep(s[i])
  {
    if s == [] then None
    else if keep(s[|s| - 1]) then Some(s[|s| - 1])
    else LastMatch(s[..|s| - 1], keep)
  }

  /** The last record of `s` whose node path is `p`. */
  function LastWith(s: seq<FileItem>, p: string): Option<FileItem> {
    LastMatch(s, (x: FileItem) => NodePath(x.path) == p)
  }

  function AsMultiset(o: Option<FileItem>): multiset<FileItem> {
    if o.Some? then multiset{o.value} else multiset{}
  }

  predicate AllHaveParts(s: seq<FileItem>) {
    forall i :: 0 <= i < |s| ==> NodeParts(s[i].path) != []
  }

  /** The forest built from any list of records is well formed. */
  lemma {:induction false} BuildOk(s: seq<FileItem>)
    ensures LevelOk(Build(s), [])
  {
    if s != [] {
      var f := s[|s| - 1];
      BuildOk(s[..|s| - 1]);
      InsertOk(Build(s[..|s| - 1]), NodeParts(f.path), [], f);
    }
  }

  /** Each node path holds the record inserted last for it, and nothing when
      no record maps to it. */
  lemma {:induction false} BuildItems(s: seq<FileItem>, p: string)
    requires AllHaveParts(s)
    ensures ItemsAt(Build(s), p) == AsMultiset(LastWith(s, p))
  {
    if s != [] {
      var front := s[..|s| - 1];
      var f := s[|s| - 1];
      BuildOk(front);
      BuildItems(front, p);
      assert [] + NodeParts(f.path) == NodeParts(f.path);
      InsertItems(Build(front), NodeParts(f.path), [], f, p);
    }
  }

  // ------------------------------------------------------------------ names

  /** Every folder name passes `folderOk` and every file name `fileOk`. */
  predicate NamesOk(level: seq<Node>, folderOk: string -> bool, fileOk: string -> bool)
    decreases level
  {
    forall i :: 0 <= i < |level| ==> NodeNamesOk(level[i], folderOk, fileOk)
  }

  predicate NodeNamesOk(n: Node, folderOk: string -> bool, fileOk: string -> bool)
    decreases n
  {
    match n
    case File(name, _, _) => fileOk(name)
    case Folder(name, _, children) => folderOk(name) && NamesOk(children, folderOk, fileOk)
  }

  /** The names the validity filter admits for folders and for files. */
  predicate FileNameOk(name: string) {
    PartOk(name) && HasExtension(name)
  }

  lemma {:induction false} InsertNames(level: seq<Node>, parts: seq<string>, pre: seq<string>, item: FileItem,
                                       folderOk: string -> bool, fileOk: string -> bool)
    requires NamesOk(level, folderOk, fileOk)
    requires forall i :: 0 <= i < |parts| - 1 ==> folderOk(parts[i])
    requires parts != [] ==> fileOk(parts[|parts| - 1])
    ensures NamesOk(Insert(level, parts, pre, item), folderOk, fileOk)
    decreases |parts|
  {
    if parts != [] {
      var path := PathOf(pre + [parts[0]]);
      var r := Insert(level, parts, pre, item);
      if |parts| == 1 {
        var k := FindFile(level, path);
        if k < |level| {
          var n := level[k].(item := item);
          assert NodeNamesOk(n, folderOk, fileOk) by {
            assert NodeNamesOk(level[k], folderOk, fileOk);
          }
          assert r == level[k := n];
        } else {
          var n := File(parts[0], path, item);
          assert r == level + [n];
        }
        assert forall i :: 0 <= i < |r| ==> (i < |level| && r[i] == level[i]) || NodeNamesOk(r[i], folderOk, fileOk);
      } else {
        var k := FindFolder(level, path);
        var folder := if k < |level| then level[k] else Folder(parts[0], path, []);
        assert NodeNamesOk(folder, folderOk, fileOk) by {
          if k < |level| {
            assert NodeNamesOk(level[k], folderOk, fileOk);
          }
        }
        assert parts[1..][|parts| - 2] == parts[|parts| - 1];
        InsertNames(folder.children, parts[1..], pre + [parts[0]], item, folderOk, fileOk);
        var grown := folder.(children := Insert(folder.children, parts[1..], pre + [parts[0]], item));
        assert NodeNamesOk(grown, folderOk, fileOk);
        if k < |level| {
          assert r == level[k := grown];
        } else {
          assert r == level + [grown];
        }
        assert forall i :: 0 <= i < |r| ==> (i < |level| && r[i] == level[i]) || r[i] == grown;
      }
    }
  }

  /** Building from records the filter accepts names every folder by a valid
      segment and every file by a valid segment with an extension. */
  lemma {:induction false} BuildNames(s: seq<FileItem>)
    requires forall i :: 0 <= i < |s| ==> IsValidPath(s[i].path)
    ensures NamesOk(Build(s), PartOk, FileNameOk)
  {
    if s != [] {
      var f := s[|s| - 1];
      var parts := NodeParts(f.path);
      BuildNames(s[..|s| - 1]);
      assert IsValidPath(f.path);
      InsertNames(Build(s[..|s| - 1]), parts, [], f, PartOk, FileNameOk);
    }
  }

  // ---------------------------------------------------------------- arrange

  lemma {:induction false} InsertNodeItems(sorted: seq<Node>, x: Node, p: string)
    ensures ItemsAt(InsertBy(sorted, x, NodeLess), p) == ItemsAt(sorted, p) + NodeItems(x, p)
  {
    if sorted == [] {
    } else if NodeLess(x, sorted[0]) {
      assert ([x] + sorted)[1..] == sorted;
    } else {
      InsertNodeItems(sorted[1..], x, p);
      assert ([sorted[0]] + InsertBy(sorted[1..], x, NodeLess))[1..] == InsertBy(sorted[1..], x, NodeLess);
    }
  }

  lemma {:induction false} SortLevelItems(s: seq<Node>, p: string)
    ensures ItemsAt(SortLevel(s), p) == ItemsAt(s, p)
  {
    if s != [] {
      var front := s[..|s| - 1];
      var x := s[|s| - 1];
      assert ItemsAt(SortLevel(s), p) == ItemsAt(front, p) + NodeItems(x, p) by {
        SortLevelItems(front, p);
        InsertNodeItems(SortLevel(front), x, p);
      }
      assert ItemsAt(s, p) == ItemsAt(front, p) + NodeItems(x, p) by {
        ItemsAtAppend(front, [x], p);
        assert ItemsAt([x], p) == NodeItems(x, p);
        assert s == front + [x];
      }
    }
  }

  /** `deduplicateAndSort` drops and merges nothing: every path holds the same
      records before and after. */
  lemma {:induction false} ArrangeItems(level: seq<Node>, p: string)
    ensures ItemsAt(Arrange(level), p) == ItemsAt(level, p)
    decreases level
  {
    var sorted := SortLevel(level);
    var out := Arrange(level);
    forall i | 0 <= i < |sorted| ensures NodeItems(out[i], p) == NodeItems(sorted[i], p) {
      assert sorted[i] in multiset(level);
      ArrangeNodeItems(sorted[i], p);
    }
    ItemsAtPointwise(out, sorted, p);
    SortLevelItems(level, p);
  }

  lemma {:induction false} ArrangeNodeItems(n: Node, p: string)
    ensures NodeItems(ArrangeNode(n), p) == NodeItems(n, p)
    decreases n
  {
    if n.Folder? {
      ArrangeItems(n.children, p);
    }
  }

  /** A node that shares a key with no node of a distinct level can go in front. */
  lemma DistinctCons(x: Node, s: seq<Node>)
    requires Distinct(s) && forall j :: 0 <= j < |s| ==> !SameKey(x, s[j])
    ensures Distinct([x] + s)
  {
    var r := [x] + s;
    assert forall j :: 1 <= j < |r| ==> r[j] == s[j - 1];
  }

  lemma {:induction false} InsertNodeDistinct(sorted: seq<Node>, x: Node)
    requires Distinct(sorted)
    requires forall y :: y in sorted ==> !SameKey(y, x)
    ensures Distinct(InsertBy(sorted, x, NodeLess))
  {
    if sorted == [] {
    } else if NodeLess(x, sorted[0]) {
      forall j | 0 <= j < |sorted| ensures !SameKey(x, sorted[j]) {
        assert sorted[j] in sorted;
      }
      DistinctCons(x, sorted);
    } else {
      var rest := InsertBy(sorted[1..], x, NodeLess);
      assert Distinct(sorted[1..]) by {
        assert forall j :: 0 <= j < |sorted| - 1 ==> sorted[1..][j] == sorted[j + 1];
      }
      InsertNodeDistinct(sorted[1..], x);
      forall j | 0 <= j < |rest| ensures !SameKey(sorted[0], rest[j]) {
        assert rest[j] in multiset(rest);
        assert rest[j] == x || rest[j] in sorted[1..];
      }
      DistinctCons(sorted[0], rest);
    }
  }

  lemma {:induction false} SortLevelDistinct(s: seq<Node>)
    requires Distinct(s)
    ensures Distinct(SortLevel(s))
  {
    if s != [] {
      var front := s[..|s| - 1];
      var x := s[|s| - 1];
      SortLevelDistinct(front);
      forall y | y in SortLevel(front) ensures !SameKey(y, x) {
        assert y in multiset(SortLevel(front));
        assert y in front;
      }
      InsertNodeDistinct(SortLevel(front), x);
    }
  }

  /** Arranging keeps every level well formed. */
  lemma {:induction false} ArrangeOk(level: seq<Node>, pre: seq<string>)
    requires LevelOk(level, pre)
    ensures LevelOk(Arrange(level), pre)
    decreases level
  {
    var sorted := SortLevel(level);
    var out := Arrange(level);
    SortLevelDistinct(level);
    forall i | 0 <= i < |sorted| ensures NodeOk(out[i], pre) && SameKey(out[i], sorted[i]) {
      assert sorted[i] in multiset(level);
      assert sorted[i] in level;
      ArrangeNodeOk(sorted[i], pre);
    }
  }

  lemma {:induction false} ArrangeNodeOk(n: Node, pre: seq<string>)
    requires NodeOk(n, pre)
    ensures NodeOk(ArrangeNode(n), pre)
    decreases n
  {
    if n.Folder? {
      ArrangeOk(n.children, pre + [n.name]);
    }
  }

  lemma {:induction false} ArrangeNames(level: seq<Node>, folderOk: string -> bool, fileOk: string -> bool)
    requires NamesOk(level, folderOk, fileOk)
    ensures NamesOk(Arrange(level), folderOk, fileOk)
    decreases level
  {
    var sorted := SortLevel(level);
    var out := Arrange(level);
    forall i | 0 <= i < |sorted| ensures NodeNamesOk(out[i], folderOk, fileOk) {
      assert sorted[i] in multiset(level);
      assert sorted[i] in level;
      assert NodeNamesOk(sorted[i], folderOk, fileOk);
      assert out[i] == ArrangeNode(sorted[i]);
      if sorted[i].Folder? {
        ArrangeNames(sorted[i].children, folderOk, fileOk);
      }
    }
  }

  /** Folders come strictly before files, and nodes of one kind strictly by
      name, on every level. */
  predicate Ordered(level: seq<Node>)
    decreases level
  {
    && (forall i, j :: 0 <= i < j < |level| ==> NodeLess(level[i], level[j]))
    && (forall i :: 0 <= i < |level| && level[i].Folder? ==> Ordered(level[i].children))
  }

  /** In a well-formed level, the sort's weak order is strict. */
  lemma SortedStrict(level: seq<Node>, pre: seq<string>)
    requires LevelOk(level, pre) && SortedBy(level, NodeLess)
    ensures forall i, j :: 0 <= i < j < |level| ==> NodeLess(level[i], level[j])
  {
    forall i, j | 0 <= i < j < |level| ensures NodeLess(level[i], level[j]) {
      if level[i].Folder? == level[j].Folder? {
        assert !SameKey(level[i], level[j]);
        StrLessTotal(level[i].name, level[j].name);
      }
    }
  }

  lemma {:induction false} ArrangeOrdered(level: seq<Node>, pre: seq<string>)
    requires LevelOk(level, pre)
    ensures Ordered(Arrange(level))
    decreases level
  {
    var sorted := SortLevel(level);
    var out := Arrange(level);
    ArrangeOk(level, pre);
    NodeLessStrict();
    SortBySorted(level, NodeLess);
    forall i | 0 <= i < |sorted| && out[i].Folder? ensures Ordered(out[i].children) {
      assert sorted[i] in multiset(level);
      assert sorted[i] in level;
      assert out[i] == ArrangeNode(sorted[i]);
      if sorted[i].Folder? {
        ArrangeOrdered(sorted[i].children, pre + [sorted[i].name]);
      }
    }
    assert SortedBy(out, NodeLess) by {
      assert forall i :: 0 <= i < |out| ==> out[i].Folder? == sorted[i].Folder? && out[i].name == sorted[i].name;
    }
    SortedStrict(out, pre);
  }
}
