/** The promises of `getFileTree` about its result, stated for the list of
    records the store holds. */
module TreeTheorems {
  import opened Paths
  import opened Files
  import opened FileTree
  import opened TreeFacts

  /** Every record the sort passes on is one the filter accepted from `files`. */
  lemma SortedValid(files: seq<FileItem>)
    ensures forall i :: 0 <= i < |SortByPath(ValidFiles(files))| ==>
              IsValidPath(SortByPath(ValidFiles(files))[i].path) && SortByPath(ValidFiles(files))[i] in files
  {
    var valid := ValidFiles(files);
    var sorted := SortByPath(valid);
    FilterCount(files, IsValidItem);
    forall i | 0 <= i < |sorted| ensures IsValidPath(sorted[i].path) && sorted[i] in files {
      assert sorted[i] in multiset(sorted);
      assert sorted[i] in valid;
      assert multiset(files)[sorted[i]] > 0;
    }
  }

  /** The forest is well formed (no two nodes of one kind share a path on a
      level, and every path spells the segments leading to it), every level is
      ordered folders first and then by name, and every name is a valid
      segment, with an extension for files. */
  lemma FileTreeShape(files: seq<FileItem>)
    ensures LevelOk(FileTreeOf(files), [])
    ensures Ordered(FileTreeOf(files))
    ensures NamesOk(FileTreeOf(files), PartOk, FileNameOk)
  {
    var sorted := SortByPath(ValidFiles(files));
    SortedValid(files);
    BuildOk(sorted);
    ArrangeOk(Build(sorted), []);
    ArrangeOrdered(Build(sorted), []);
    BuildNames(sorted);
    ArrangeNames(Build(sorted), PartOk, FileNameOk);
  }

  /** Each node path holds exactly the record that comes last, after the sort
      by path, among the valid records with that node path, and nothing when
      there is none. */
  lemma FileTreeItems(files: seq<FileItem>, p: string)
    ensures ItemsAt(FileTreeOf(files), p) == AsMultiset(LastWith(SortByPath(ValidFiles(files)), p))
  {
    var sorted := SortByPath(ValidFiles(files));
    SortedValid(files);
    BuildItems(sorted, p);
    ArrangeItems(Build(sorted), p);
  }

  /** Some element survives a filter and a sort and then matches `want`
      exactly when some element of the input passes both tests. */
  lemma MatchAfterFilterSort<T(!new)>(s: seq<T>, keep: T -> bool, less: (T, T) -> bool, want: T -> bool)
    ensures LastMatch(SortBy(Filter(s, keep), less), want).Some? <==>
              exists i :: 0 <= i < |s| && keep(s[i]) && want(s[i])
  {
    var sorted := SortBy(Filter(s, keep), less);
    FilterCount(s, keep);
    if i :| 0 <= i < |s| && keep(s[i]) && want(s[i]) {
      assert multiset(s)[s[i]] > 0;
      assert s[i] in multiset(sorted);
      var j :| 0 <= j < |sorted| && sorted[j] == s[i];
    }
    var r := LastMatch(sorted, want);
    if r.Some? {
      assert r.value in multiset(Filter(s, keep));
      assert r.value in s;
    }
  }

  /** A path holds at most one record, and one exactly when the sorted valid
      records have one for it. */
  lemma FileTreeAtMostOne(files: seq<FileItem>, p: string)
    ensures ItemsAt(FileTreeOf(files), p) != multiset{} <==> LastWith(SortByPath(ValidFiles(files)), p).Some?
    ensures |ItemsAt(FileTreeOf(files), p)| <= 1
  {
    FileTreeItems(files, p);
  }

  /** The sorted valid records have one for node path `p` exactly when `files`
      has a record that passes the filter and maps to `p`. */
  lemma LastWithValid(files: seq<FileItem>, p: string)
    ensures LastWith(SortByPath(ValidFiles(files)), p).Some? <==>
              exists i :: 0 <= i < |files| && IsValidPath(files[i].path) && NodePath(files[i].path) == p
  {
    MatchAfterFilterSort(files, IsValidItem, PathLess, (x: FileItem) => NodePath(x.path) == p);
  }

  /** There is a file node at `p` exactly when some record that passes the
      filter maps to `p`, and then there is exactly one. */
  lemma FileTreeHasFile(files: seq<FileItem>, p: string)
    ensures ItemsAt(FileTreeOf(files), p) != multiset{} <==>
              exists i :: 0 <= i < |files| && IsValidPath(files[i].path) && NodePath(files[i].path) == p
    ensures |ItemsAt(FileTreeOf(files), p)| <= 1
  {
    FileTreeAtMostOne(files, p);
    LastWithValid(files, p);
  }

  // ---------------------------------------------------- order independence

  /** Records of `m` that share a path are the same record. */
  ghost predicate OneRecordPerPath(m: multiset<FileItem>) {
    forall x, y :: x in m && y in m && x.path == y.path ==> x == y
  }

  lemma UniquePathsOneRecord(s: seq<FileItem>)
    requires UniquePaths(s)
    ensures OneRecordPerPath(multiset(s))
  {
    forall x, y | x in multiset(s) && y in multiset(s) && x.path == y.path ensures x == y {
      var i :| 0 <= i < |s| && s[i] == x;
      var j :| 0 <= j < |s| && s[j] == y;
      assert !(i < j) && !(j < i);
    }
  }

  lemma MultisetTail<T>(a: seq<T>)
    requires a != []
    ensures multiset(a[1..]) == multiset(a) - multiset{a[0]}
  {
    assert a == [a[0]] + a[1..];
  }

  lemma SortedTail<T>(a: seq<T>, less: (T, T) -> bool)
    requires a != [] && SortedBy(a, less)
    ensures SortedBy(a[1..], less)
  {
    assert forall k :: 0 <= k < |a| - 1 ==> a[1..][k] == a[k + 1];
  }

  /** Any two distinct elements of `a` are compared by `less`. */
  ghost predicate Comparable<T>(a: seq<T>, less: (T, T) -> bool) {
    forall i, j :: 0 <= i < |a| && 0 <= j < |a| && a[i] != a[j] ==> less(a[i], a[j]) || less(a[j], a[i])
  }

  /** Two sorted lists with the same elements, any two distinct of which the
      order compares, start with the same element. */
  lemma SortedHeads<T(!new)>(a: seq<T>, b: seq<T>, less: (T, T) -> bool)
    requires a != [] && SortedBy(a, less) && SortedBy(b, less)
    requires multiset(a) == multiset(b) && Comparable(a, less)
    ensures b != [] && a[0] == b[0]
  {
    assert a[0] in multiset(b);
    var i :| 0 <= i < |b| && b[i] == a[0];
    assert b[0] in multiset(a);
    var j :| 0 <= j < |a| && a[j] == b[0];
    assert i == 0 || !less(b[i], b[0]);
    assert j == 0 || !less(a[j], a[0]);
  }

  /** Dropping the head keeps a list comparable. */
  lemma ComparableTail<T>(a: seq<T>, less: (T, T) -> bool)
    requires a != [] && Comparable(a, less)
    ensures Comparable(a[1..], less)
  {
    forall i, j | 0 <= i < |a| - 1 && 0 <= j < |a| - 1
      ensures a[1..][i] == a[i + 1] && a[1..][j] == a[j + 1]
    {
    }
  }

  lemma SameHeadTail<T>(a: seq<T>, b: seq<T>)
    requires a != [] && b != [] && a[0] == b[0] && a[1..] == b[1..]
    ensures a == b
  {
    assert a == [a[0]] + a[1..];
    assert b == [b[0]] + b[1..];
  }

  /** Two sorted lists with the same elements, any two distinct of which the
      order compares, are the same list. */
  lemma {:induction false} SortedUnique<T(!new)>(a: seq<T>, b: seq<T>, less: (T, T) -> bool)
    requires SortedBy(a, less) && SortedBy(b, less)
    requires multiset(a) == multiset(b) && Comparable(a, less)
    ensures a == b
  {
    if a == [] {
      assert |b| == |multiset(b)|;
    } else {
      SortedHeads(a, b, less);
      MultisetTail(a);
      MultisetTail(b);
      SortedTail(a, less);
      SortedTail(b, less);
      ComparableTail(a, less);
      SortedUnique(a[1..], b[1..], less);
      SameHeadTail(a, b);
    }
  }

  /** For records no two of which share a path unless equal, the tree does not
      depend on the order of the list. */
  lemma FileTreeOrderFree(a: seq<FileItem>, b: seq<FileItem>)
    requires multiset(a) == multiset(b) && OneRecordPerPath(multiset(a))
    ensures FileTreeOf(a) == FileTreeOf(b)
  {
    var va := ValidFiles(a);
    var vb := ValidFiles(b);
    var sa := SortByPath(va);
    var sb := SortByPath(vb);
    FilterSameElements(a, b, IsValidItem);
    FilterSubset(a, IsValidItem);
    assert SortedBy(sa, PathLess) && SortedBy(sb, PathLess) by {
      PathLessStrict();
      SortBySorted(va, PathLess);
      SortBySorted(vb, PathLess);
    }
    forall i, j | 0 <= i < |sa| && 0 <= j < |sa| && sa[i] != sa[j]
      ensures PathLess(sa[i], sa[j]) || PathLess(sa[j], sa[i])
    {
      assert sa[i] in multiset(a) && sa[j] in multiset(a);
      StrLessTotal(sa[i].path, sa[j].path);
    }
    SortedUnique(sa, sb, PathLess);
  }

  /** The store's own lists, whose paths are unique, give the same tree in any order. */
  lemma FileTreeOrderFreeUnique(a: seq<FileItem>, b: seq<FileItem>)
    requires UniquePaths(a) && multiset(a) == multiset(b)
    ensures FileTreeOf(a) == FileTreeOf(b)
  {
    UniquePathsOneRecord(a);
    FileTreeOrderFree(a, b);
  }

  // -------------------------------------------------------------- stability

  /** The records whose path is exactly `p`, in order. */
  function WithPath(s: seq<FileItem>, p: string): seq<FileItem> {
    Filter(s, (x: FileItem) => x.path == p)
  }

  lemma {:induction false} FilterAppend<T(!new)>(a: seq<T>, b: seq<T>, keep: T -> bool)
    ensures Filter(a + b, keep) == Filter(a, keep) + Filter(b, keep)
  {
    if b == [] {
      assert a + b == a;
    } else {
      assert (a + b)[..|a + b| - 1] == a + b[..|b| - 1];
      assert (a + b)[|a + b| - 1] == b[|b| - 1];
      FilterAppend(a, b[..|b| - 1], keep);
    }
  }

  lemma {:induction false} FilterNone<T(!new)>(s: seq<T>, keep: T -> bool)
    requires forall i :: 0 <= i < |s| ==> !keep(s[i])
    ensures Filter(s, keep) == []
  {
    if s != [] {
      FilterNone(s[..|s| - 1], keep);
    }
  }

  /** The elements `keep` groups together compare alike with everything. */
  ghost predicate AlikeUnder<T(!new)>(keep: T -> bool, less: (T, T) -> bool) {
    forall y, z, w :: keep(y) && keep(z) && less(y, w) ==> less(z, w)
  }

  /** When `x` goes in front, no element of its group can follow it. */
  lemma InsertByStableFront<T(!new)>(sorted: seq<T>, x: T, less: (T, T) -> bool, keep: T -> bool)
    requires sorted != [] && less(x, sorted[0])
    requires SortedBy(sorted, less) && (forall a :: !less(a, a)) && AlikeUnder(keep, less)
    ensures Filter([x] + sorted, keep) == Filter(sorted, keep) + Filter([x], keep)
  {
    FilterAppend([x], sorted, keep);
    if keep(x) {
      forall i | 0 <= i < |sorted| ensures !keep(sorted[i]) {
        assert i == 0 || !less(sorted[i], sorted[0]);
      }
      FilterNone(sorted, keep);
    } else {
      FilterNone([x], keep);
    }
  }

  /** When the head stays in front, it stays in front of its group too. */
  lemma InsertByStableHead<T(!new)>(sorted: seq<T>, rest: seq<T>, x: T, keep: T -> bool)
    requires sorted != []
    requires Filter(rest, keep) == Filter(sorted[1..], keep) + Filter([x], keep)
    ensures Filter([sorted[0]] + rest, keep) == Filter(sorted, keep) + Filter([x], keep)
  {
    FilterAppend([sorted[0]], rest, keep);
    assert sorted == [sorted[0]] + sorted[1..];
    FilterAppend([sorted[0]], sorted[1..], keep);
  }

  /** Inserting into a sorted list appends `x` to the elements of its group. */
  lemma {:induction false} InsertByStable<T(!new)>(sorted: seq<T>, x: T, less: (T, T) -> bool, keep: T -> bool)
    requires SortedBy(sorted, less) && (forall a :: !less(a, a)) && AlikeUnder(keep, less)
    ensures Filter(InsertBy(sorted, x, less), keep) == Filter(sorted, keep) + Filter([x], keep)
  {
    if sorted == [] {
      assert [x] == [] + [x];
    } else if less(x, sorted[0]) {
      InsertByStableFront(sorted, x, less, keep);
    } else {
      SortedTail(sorted, less);
      InsertByStable(sorted[1..], x, less, keep);
      InsertByStableHead(sorted, InsertBy(sorted[1..], x, less), x, keep);
    }
  }

  /** The sort inserts the last element into the sorted front. */
  lemma SortByLast<T(!new)>(s: seq<T>, less: (T, T) -> bool)
    requires s != []
    ensures SortBy(s, less) == InsertBy(SortBy(s[..|s| - 1], less), s[|s| - 1], less)
  {
  }

  /** The filter of a list is that of its front followed by that of its last element. */
  lemma FilterLast<T(!new)>(s: seq<T>, keep: T -> bool)
    requires s != []
    ensures Filter(s, keep) == Filter(s[..|s| - 1], keep) + Filter([s[|s| - 1]], keep)
  {
    var x := s[|s| - 1];
    assert [x][..0] == [];
    assert Filter([x], keep) == if keep(x) then [x] else [];
  }

  /** The insertion sort is stable: the elements of each group keep their order. */
  lemma {:induction false} SortByStable<T(!new)>(s: seq<T>, less: (T, T) -> bool, keep: T -> bool)
    requires StrictOrder(less) && AlikeUnder(keep, less)
    ensures Filter(SortBy(s, less), keep) == Filter(s, keep)
  {
    if s != [] {
      var front := s[..|s| - 1];
      SortByStable(front, less, keep);
      SortBySorted(front, less);
      InsertByStable(SortBy(front, less), s[|s| - 1], less, keep);
      SortByLast(s, less);
      FilterLast(s, keep);
    }
  }

  /** The sort by path is stable: the records of each path keep their order. */
  lemma SortByPathStable(s: seq<FileItem>, p: string)
    ensures WithPath(SortByPath(s), p) == WithPath(s, p)
  {
    var keep := (y: FileItem) => y.path == p;
    PathLessStrict();
    assert AlikeUnder(keep, PathLess);
    SortByStable(s, PathLess, keep);
  }

  /** Filtering by a test that implies another makes the other redundant. */
  lemma {:induction false} FilterFirst<T(!new)>(s: seq<T>, wide: T -> bool, narrow: T -> bool)
    requires forall x :: narrow(x) ==> wide(x)
    ensures Filter(Filter(s, wide), narrow) == Filter(s, narrow)
  {
    if s != [] {
      var front := s[..|s| - 1];
      var x := s[|s| - 1];
      FilterFirst(front, wide, narrow);
      if wide(x) {
        assert (Filter(front, wide) + [x])[..|Filter(front, wide) + [x]| - 1] == Filter(front, wide);
      }
    }
  }

  /** For a path the filter accepts, filtering first keeps all its records. */
  lemma ValidWithPath(s: seq<FileItem>, p: string)
    requires IsValidPath(p)
    ensures WithPath(ValidFiles(s), p) == WithPath(s, p)
  {
    FilterFirst(s, IsValidItem, (y: FileItem) => y.path == p);
  }

  function LastOf<T>(s: seq<T>): Option<T> {
    if s == [] then None else Some(s[|s| - 1])
  }

  /** Two tests that agree on the elements of `s` find the same last match. */
  lemma {:induction false} LastMatchAgrees<T(!new)>(s: seq<T>, keep: T -> bool, narrow: T -> bool)
    requires forall i :: 0 <= i < |s| ==> (keep(s[i]) <==> narrow(s[i]))
    ensures LastMatch(s, keep) == LastOf(Filter(s, narrow))
  {
    if s != [] {
      LastMatchAgrees(s[..|s| - 1], keep, narrow);
    }
  }

  /** When every record with node path `NodePath(p)` is spelled `p`, the last
      of them is the last record with path `p`. */
  lemma LastWithSpelled(s: seq<FileItem>, p: string)
    requires forall i :: 0 <= i < |s| && NodePath(s[i].path) == NodePath(p) ==> s[i].path == p
    ensures LastWith(s, NodePath(p)) == LastOf(WithPath(s, p))
  {
    LastMatchAgrees(s, (x: FileItem) => NodePath(x.path) == NodePath(p), (x: FileItem) => x.path == p);
  }

  /** The record at `i` is the last one with its path when no later one has it. */
  lemma LastOfWithPath(files: seq<FileItem>, i: nat)
    requires i < |files|
    requires forall j :: i < j < |files| ==> files[j].path != files[i].path
    ensures LastOf(WithPath(files, files[i].path)) == Some(files[i])
  {
    var p := files[i].path;
    var keep := (y: FileItem) => y.path == p;
    assert files == files[..i + 1] + files[i + 1..];
    FilterAppend(files[..i + 1], files[i + 1..], keep);
    FilterNone(files[i + 1..], keep);
    assert files[..i + 1][..i] == files[..i];
  }

  /** A property every element of `s` has, every element the filter and the
      sort pass on has too, beside the one the filter checks. */
  lemma FilterSortKeeps<T(!new)>(s: seq<T>, keep: T -> bool, less: (T, T) -> bool, good: T -> bool)
    requires forall j :: 0 <= j < |s| ==> good(s[j])
    ensures forall k :: 0 <= k < |SortBy(Filter(s, keep), less)| ==>
              keep(SortBy(Filter(s, keep), less)[k]) && good(SortBy(Filter(s, keep), less)[k])
  {
    var r := SortBy(Filter(s, keep), less);
    FilterSubset(s, keep);
    forall k | 0 <= k < |r| ensures keep(r[k]) && good(r[k]) {
      assert r[k] in multiset(r);
      assert r[k] in multiset(s);
      var j :| 0 <= j < |s| && s[j] == r[k];
    }
  }

  /** The spelling condition carries over from `files` to the sorted valid records. */
  lemma SortedSpelled(files: seq<FileItem>, p: string)
    requires forall j :: 0 <= j < |files| && IsValidPath(files[j].path) && NodePath(files[j].path) == NodePath(p) ==>
               files[j].path == p
    ensures var sorted := SortByPath(ValidFiles(files));
            forall k :: 0 <= k < |sorted| && NodePath(sorted[k].path) == NodePath(p) ==> sorted[k].path == p
  {
    var good := (x: FileItem) => IsValidPath(x.path) && NodePath(x.path) == NodePath(p) ==> x.path == p;
    FilterSortKeeps(files, IsValidItem, PathLess, good);
  }

  /** When the records mapping to the node path of `files[i]` all spell it
      `files[i].path` and no later record has that path, the node there holds
      `files[i]`: of several records with one path, the later wins. */
  lemma LaterRecordWins(files: seq<FileItem>, i: nat)
    requires i < |files| && IsValidPath(files[i].path)
    requires forall j :: i < j < |files| ==> files[j].path != files[i].path
    requires forall j :: 0 <= j < |files| && IsValidPath(files[j].path) && NodePath(files[j].path) == NodePath(files[i].path) ==>
               files[j].path == files[i].path
    ensures ItemsAt(FileTreeOf(files), NodePath(files[i].path)) == multiset{files[i]}
  {
    var p := files[i].path;
    var sorted := SortByPath(ValidFiles(files));
    FileTreeItems(files, NodePath(p));
    SortedSpelled(files, p);
    LastWithSpelled(sorted, p);
    SortByPathStable(ValidFiles(files), p);
    ValidWithPath(files, p);
    LastOfWithPath(files, i);
  }

  // ------------------------------------------------------------- as written

  lemma ExampleTrim()
    ensures Trim("a.tf/ ") == "a.tf/"
  {
    assert "a.tf/ " == "a.tf/" + [' '];
    TrimTrailing("a.tf/", ' ');
  }

  lemma ExampleSegmentsTrimmed()
    ensures Segments("a.tf/") == ["a.tf"]
  {
    assert "a.tf/" == "a.tf" + ['/'] + "";
    SplitLast("a.tf", "", '/');
    SplitNone("a.tf", '/');
    assert ["a.tf"] + [""] == ["a.tf", ""];
  }

  lemma ExampleSegmentsRaw()
    ensures Segments("a.tf/ ") == ["a.tf", " "]
  {
    assert "a.tf/ " == "a.tf" + ['/'] + " ";
    SplitLast("a.tf", " ", '/');
    SplitNone("a.tf", '/');
    assert ["a.tf"] + [" "] == ["a.tf", " "];
  }

  lemma ExampleNames()
    ensures FileNameOk("a.tf") && !PartOk(" ") && !FileNameOk(" ")
  {
    assert LastIndexOf("a.tf", '.') == 1;
    assert "a.tf"[..1] == "a" && "a.tf"[2..] == "tf";
    assert SplitOn("a", '.') == ["a"];
    assert SplitOn("a.tf", '.') == ["a", "tf"];
    assert !IsSpace("a.tf"[0]);
    assert Trim(" ") == [];
  }

  /** A path whose trimmed form is the one segment `part`, a valid file name, passes the filter. */
  lemma ValidOneSegment(p: string, part: string)
    requires Trim(p) != [] && Segments(Trim(p)) == [part] && FileNameOk(part)
    ensures IsValidPath(p)
  {
  }

  lemma ExampleValid()
    ensures IsValidPath("a.tf/ ")
  {
    ExampleTrim();
    ExampleSegmentsTrimmed();
    ExampleNames();
    ValidOneSegment("a.tf/ ", "a.tf");
  }

  lemma ExamplePaths()
    ensures PathOf(["a.tf"]) == "a.tf" && PathOf(["a.tf", " "]) == "a.tf/ "
  {
    assert ["a.tf"][..0] == [];
    assert ["a.tf", " "][..1] == ["a.tf"];
  }

  /** The untrimmed segments give a folder `a.tf` holding a file named `" "`. */
  lemma ExampleInsertRaw(f: FileItem)
    ensures Insert([], ["a.tf", " "], [], f) == [Folder("a.tf", "a.tf", [File(" ", "a.tf/ ", f)])]
  {
    ExamplePaths();
    assert [] + ["a.tf"] == ["a.tf"];
    assert ["a.tf"] + [" "] == ["a.tf", " "];
    assert ["a.tf", " "][1..] == [" "];
    assert Insert([], [" "], ["a.tf"], f) == [File(" ", "a.tf/ ", f)];
  }

  /** The trimmed segments give the file node `a.tf`. */
  lemma ExampleInsertTrimmed(f: FileItem)
    ensures Insert([], ["a.tf"], [], f) == [File("a.tf", "a.tf", f)]
  {
    ExamplePaths();
    assert [] + ["a.tf"] == ["a.tf"];
  }

  lemma ExampleBuildAsWritten(f: FileItem)
    requires f.path == "a.tf/ "
    ensures BuildAsWritten([f]) == [Folder("a.tf", "a.tf", [File(" ", "a.tf/ ", f)])]
  {
    assert [f][..0] == [];
    ExampleSegmentsRaw();
    ExampleInsertRaw(f);
  }

  lemma ExampleBuild(f: FileItem)
    requires f.path == "a.tf/ "
    ensures Build([f]) == [File("a.tf", "a.tf", f)]
  {
    assert [f][..0] == [];
    ExampleTrim();
    ExampleSegmentsTrimmed();
    ExampleInsertTrimmed(f);
  }

  lemma ExampleBadName(f: FileItem, folderOk: string -> bool, fileOk: string -> bool)
    requires !fileOk(" ")
    ensures !NamesOk([Folder("a.tf", "a.tf", [File(" ", "a.tf/ ", f)])], folderOk, fileOk)
  {
    var t := [Folder("a.tf", "a.tf", [File(" ", "a.tf/ ", f)])];
    assert !NodeNamesOk(t[0].children[0], folderOk, fileOk);
    assert !NamesOk(t[0].children, folderOk, fileOk);
    assert !NodeNamesOk(t[0], folderOk, fileOk);
  }

  /** The record at `"a.tf/ "` passes the filter, which judges the trimmed
      path, but the build as written splits the untrimmed path and gives it a
      file node named `" "`, which is blank and has no extension; the corrected
      build gives it the file node `a.tf`. */
  lemma AsWrittenBlankFileName()
    ensures IsValidPath("a.tf/ ")
    ensures var f := FileItem("a.tf/ ", "", Creating, None, None);
            && BuildAsWritten([f]) == [Folder("a.tf", "a.tf", [File(" ", "a.tf/ ", f)])]
            && !NamesOk(BuildAsWritten([f]), PartOk, FileNameOk)
            && Build([f]) == [File("a.tf", "a.tf", f)]
  {
    var f := FileItem("a.tf/ ", "", Creating, None, None);
    ExampleValid();
    ExampleBuildAsWritten(f);
    ExampleBuild(f);
    ExampleNames();
    ExampleBadName(f, PartOk, FileNameOk);
  }
}
