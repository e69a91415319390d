/** The tree build of `getFileTree` (lib/store.ts:115-156) as the source runs
    it: a loop over the sorted records, and for each a loop over its segments
    that keeps a cursor on the level it has reached and a `pathMap` from
    folder paths to folder nodes. A node reference is modelled as a route:
    the indices of the folders that lead from the top of the forest to a
    level, so `currentLevel` is the level a route reaches and `pathMap` maps
    paths to routes. The method is proved to compute `BuildAsWritten`, the
    build from the untrimmed paths. */
module TreeBuilder {
  import opened Paths
  import opened Files
  import opened FileTree

  /** The indices of the folders from the top of the forest down to a level. */
  type Route = seq<nat>

  /** Every index of `r` names a folder of the level reached so far. */
  predicate IsRoute(level: seq<Node>, r: Route)
    decreases |r|
  {
    r == [] || (r[0] < |level| && level[r[0]].Folder? && IsRoute(level[r[0]].children, r[1..]))
  }

  /** The level route `r` reaches. */
  function Sub(level: seq<Node>, r: Route): seq<Node>
    requires IsRoute(level, r)
    decreases |r|
  {
    if r == [] then level else Sub(level[r[0]].children, r[1..])
  }

  /** The forest with the level route `r` reaches replaced by `x`: what a
      change made through a reference to that level does to the whole. */
  function Graft(level: seq<Node>, r: Route, x: seq<Node>): seq<Node>
    requires IsRoute(level, r)
    decreases |r|
  {
    if r == [] then x
    else level[r[0] := level[r[0]].(children := Graft(level[r[0]].children, r[1..], x))]
  }

  /** Descending one more folder from a level. */
  lemma {:induction false} RouteStep(level: seq<Node>, r: Route, k: nat)
    requires IsRoute(level, r)
    ensures IsRoute(level, r + [k]) <==> k < |Sub(level, r)| && Sub(level, r)[k].Folder?
    ensures IsRoute(level, r + [k]) ==> Sub(level, r + [k]) == Sub(level, r)[k].children
  {
    if r != [] {
      assert (r + [k])[1..] == r[1..] + [k];
      RouteStep(level[r[0]].children, r[1..], k);
    }
  }

  /** A graft puts `x` where the route leads and keeps the route valid. */
  lemma {:induction false} SubGraft(level: seq<Node>, r: Route, x: seq<Node>)
    requires IsRoute(level, r)
    ensures IsRoute(Graft(level, r, x), r) && Sub(Graft(level, r, x), r) == x
  {
    if r != [] {
      SubGraft(level[r[0]].children, r[1..], x);
    }
  }

  /** Grafting back what is there changes nothing. */
  lemma {:induction false} GraftSub(level: seq<Node>, r: Route)
    requires IsRoute(level, r)
    ensures Graft(level, r, Sub(level, r)) == level
  {
    if r != [] {
      GraftSub(level[r[0]].children, r[1..]);
    }
  }

  /** Changing the children of folder `k` of a grafted level is one graft. */
  lemma {:induction false} GraftDeeper(level: seq<Node>, r: Route, l: seq<Node>, k: nat, x: seq<Node>)
    requires IsRoute(level, r) && k < |l| && l[k].Folder?
    ensures IsRoute(Graft(level, r, l), r + [k])
    ensures Graft(Graft(level, r, l), r + [k], x) == Graft(level, r, l[k := l[k].(children := x)])
  {
    SubGraft(level, r, l);
    RouteStep(Graft(level, r, l), r, k);
    if r != [] {
      assert (r + [k])[1..] == r[1..] + [k];
      GraftDeeper(level[r[0]].children, r[1..], l, k, x);
    }
  }

  // ------------------------------------------------------------- extension

  /** `b` keeps every node of `a` at its index, with its kind and path, and
      the same holds for the children of its folders; `b` may have more. */
  predicate LevelExt(a: seq<Node>, b: seq<Node>)
    decreases a
  {
    |a| <= |b| && forall i :: 0 <= i < |a| ==> NodeExt(a[i], b[i])
  }

  predicate NodeExt(x: Node, y: Node)
    decreases x
  {
    x.Folder? == y.Folder? && x.path == y.path && (x.Folder? ==> LevelExt(x.children, y.children))
  }

  lemma {:induction false} LevelExtRefl(a: seq<Node>)
    ensures LevelExt(a, a)
    decreases a
  {
    forall i | 0 <= i < |a| ensures NodeExt(a[i], a[i]) {
      NodeExtRefl(a[i]);
    }
  }

  lemma {:induction false} NodeExtRefl(x: Node)
    ensures NodeExt(x, x)
    decreases x
  {
    if x.Folder? {
      LevelExtRefl(x.children);
    }
  }

  lemma ExtAppend(a: seq<Node>, x: Node)
    ensures LevelExt(a, a + [x])
  {
    LevelExtRefl(a);
  }

  lemma ExtSetItem(a: seq<Node>, k: nat, f: FileItem)
    requires k < |a| && a[k].File?
    ensures LevelExt(a, a[k := a[k].(item := f)])
  {
    var b := a[k := a[k].(item := f)];
    forall i | 0 <= i < |a| ensures NodeExt(a[i], b[i]) {
      if i != k {
        NodeExtRefl(a[i]);
      }
    }
  }

  /** A folder found in a level is found at the same index in any extension. */
  lemma FindFolderExt(a: seq<Node>, b: seq<Node>, p: string)
    requires LevelExt(a, b) && FindFolder(a, p) < |a|
    ensures FindFolder(b, p) == FindFolder(a, p)
  {
    var k := FindFolder(a, p);
    assert NodeExt(a[k], b[k]);
  }

  lemma {:induction false} SubExt(a: seq<Node>, b: seq<Node>, r: Route)
    requires LevelExt(a, b) && IsRoute(a, r)
    ensures IsRoute(b, r) && LevelExt(Sub(a, r), Sub(b, r))
    decreases |r|
  {
    if r != [] {
      assert NodeExt(a[r[0]], b[r[0]]);
      SubExt(a[r[0]].children, b[r[0]].children, r[1..]);
    }
  }

  /** Extending the level a route reaches extends the whole forest. */
  lemma {:induction false} GraftExt(level: seq<Node>, r: Route, x: seq<Node>)
    requires IsRoute(level, r) && LevelExt(Sub(level, r), x)
    ensures LevelExt(level, Graft(level, r, x))
    decreases |r|
  {
    if r != [] {
      var g := Graft(level, r, x);
      GraftExt(level[r[0]].children, r[1..], x);
      forall i | 0 <= i < |level| ensures NodeExt(level[i], g[i]) {
        if i != r[0] {
          NodeExtRefl(level[i]);
        } else {
          assert g[i] == level[i].(children := Graft(level[i].children, r[1..], x));
        }
      }
    }
  }

  // ------------------------------------------------------------- path map

  /** The route that `find` on `type === 'folder' && path === ...` reaches when
      it walks the segments `pre`, one level at a time, if every folder exists. */
  function FolderRoute(level: seq<Node>, pre: seq<string>): (o: Option<Route>)
    ensures o.Some? ==> IsRoute(level, o.value) && |o.value| == |pre|
  {
    if pre == [] then Some([])
    else
      match FolderRoute(level, pre[..|pre| - 1])
      case None => None
      case Some(r) =>
        var sub := Sub(level, r);
        var k := FindFolder(sub, PathOf(pre));
        if k < |sub| then
          RouteStep(level, r, k);
          Some(r + [k])
        else None
  }

  /** A route found in a forest is found unchanged in any extension of it. */
  lemma {:induction false} FolderRouteExt(a: seq<Node>, b: seq<Node>, pre: seq<string>)
    requires LevelExt(a, b) && FolderRoute(a, pre).Some?
    ensures FolderRoute(b, pre) == FolderRoute(a, pre)
  {
    if pre != [] {
      var front := pre[..|pre| - 1];
      FolderRouteExt(a, b, front);
      var r := FolderRoute(a, front).value;
      SubExt(a, b, r);
      FindFolderExt(Sub(a, r), Sub(b, r), PathOf(pre));
    }
  }

  /** The invariant of `pathMap`: every folder it maps is the one the search
      along that folder's segments finds. */
  ghost predicate MapsRoutes(tree: seq<Node>, pathMap: map<string, Route>) {
    forall key :: key in pathMap ==> FolderRoute(tree, Segments(key)) == Some(pathMap[key])
  }

  lemma MapsRoutesExt(a: seq<Node>, b: seq<Node>, pathMap: map<string, Route>)
    requires LevelExt(a, b) && MapsRoutes(a, pathMap)
    ensures MapsRoutes(b, pathMap)
  {
    forall key | key in pathMap ensures FolderRoute(b, Segments(key)) == Some(pathMap[key]) {
      FolderRouteExt(a, b, Segments(key));
    }
  }

  /** Walking the segment after `pre` from its route. */
  lemma FolderRouteNext(level: seq<Node>, parts: seq<string>, index: nat, r: Route)
    requires index < |parts| && FolderRoute(level, parts[..index]) == Some(r)
    ensures var sub := Sub(level, r);
            var k := FindFolder(sub, PathOf(parts[..index + 1]));
            FolderRoute(level, parts[..index + 1]) == if k < |sub| then Some(r + [k]) else None
  {
    assert parts[..index + 1][..index] == parts[..index];
  }

  lemma MapsRoutesAdd(tree: seq<Node>, pathMap: map<string, Route>, key: string, r: Route)
    requires MapsRoutes(tree, pathMap) && FolderRoute(tree, Segments(key)) == Some(r)
    ensures MapsRoutes(tree, pathMap[key := r])
  {
  }

  // ------------------------------------------------------------- the cursor

  /** The state of the walk over `parts` before segment `index`: `route`
      reaches the folder of the segments walked so far, and inserting the
      rest of the segments there gives `target`. */
  ghost predicate Cursor(tree: seq<Node>, route: Route, parts: seq<string>, index: nat, file: FileItem, target: seq<Node>) {
    && index < |parts|
    && FolderRoute(tree, parts[..index]) == Some(route)
    && Graft(tree, route, Insert(Sub(tree, route), parts[index..], parts[..index], file)) == target
  }

  /** The last segment: point the file node at the record or push a new one. */
  lemma LeafStep(tree: seq<Node>, route: Route, parts: seq<string>, index: nat, file: FileItem, target: seq<Node>,
                 pathMap: map<string, Route>)
    requires Cursor(tree, route, parts, index, file, target) && index == |parts| - 1
    requires MapsRoutes(tree, pathMap)
    ensures var here := Sub(tree, route);
            var path := PathOf(parts[..index + 1]);
            var k := FindFile(here, path);
            var level := if k < |here| then here[k := here[k].(item := file)] else here + [File(parts[index], path, file)];
            Graft(tree, route, level) == target && MapsRoutes(Graft(tree, route, level), pathMap)
  {
    var here := Sub(tree, route);
    var path := PathOf(parts[..index + 1]);
    var k := FindFile(here, path);
    PathNext(parts, index);
    assert parts[index..] == [parts[index]];
    if k < |here| {
      ExtSetItem(here, k, file);
    } else {
      ExtAppend(here, File(parts[index], path, file));
    }
    var level := if k < |here| then here[k := here[k].(item := file)] else here + [File(parts[index], path, file)];
    GraftExt(tree, route, level);
    MapsRoutesExt(tree, Graft(tree, route, level), pathMap);
  }

  /** A folder segment whose folder exists at index `k`: descend into it. */
  lemma DescendStep(tree: seq<Node>, route: Route, parts: seq<string>, index: nat, file: FileItem, target: seq<Node>)
    requires Cursor(tree, route, parts, index, file, target) && index < |parts| - 1
    requires FindFolder(Sub(tree, route), PathOf(parts[..index + 1])) < |Sub(tree, route)|
    ensures Cursor(tree, route + [FindFolder(Sub(tree, route), PathOf(parts[..index + 1]))], parts, index + 1, file, target)
  {
    var here := Sub(tree, route);
    var k := FindFolder(here, PathOf(parts[..index + 1]));
    PathNext(parts, index);
    FolderRouteNext(tree, parts, index, route);
    var rest := parts[index..];
    assert rest[0] == parts[index] && rest[1..] == parts[index + 1..] && |rest| > 1;
    var x := Insert(here[k].children, parts[index + 1..], parts[..index + 1], file);
    GraftSub(tree, route);
    GraftDeeper(tree, route, here, k, x);
    RouteStep(tree, route, k);
  }

  /** A folder segment whose folder is missing: push a new one and descend. */
  lemma CreateStep(tree: seq<Node>, route: Route, parts: seq<string>, index: nat, file: FileItem, target: seq<Node>,
                   pathMap: map<string, Route>)
    requires Cursor(tree, route, parts, index, file, target) && index < |parts| - 1
    requires FindFolder(Sub(tree, route), PathOf(parts[..index + 1])) == |Sub(tree, route)|
    requires MapsRoutes(tree, pathMap)
    ensures var here := Sub(tree, route);
            var grown := Graft(tree, route, here + [Folder(parts[index], PathOf(parts[..index + 1]), [])]);
            Cursor(grown, route + [|here|], parts, index + 1, file, target) && MapsRoutes(grown, pathMap)
  {
    var here := Sub(tree, route);
    var path := PathOf(parts[..index + 1]);
    var k := |here|;
    var folder := Folder(parts[index], path, []);
    var level := here + [folder];
    assert FindFolder(level, path) == k by {
      assert level[k] == folder;
      assert forall j :: 0 <= j < k ==> level[j] == here[j];
    }
    PathNext(parts, index);
    var rest := parts[index..];
    assert rest[0] == parts[index] && rest[1..] == parts[index + 1..] && |rest| > 1;
    ExtAppend(here, folder);
    GraftExt(tree, route, level);
    var grown := Graft(tree, route, level);
    MapsRoutesExt(tree, grown, pathMap);
    FolderRouteExt(tree, grown, parts[..index]);
    SubGraft(tree, route, level);
    FolderRouteNext(grown, parts, index, route);
    var x := Insert([], parts[index + 1..], parts[..index + 1], file);
    GraftDeeper(tree, route, level, k, x);
    assert level[k := level[k].(children := x)] == here + [folder.(children := x)];
    RouteStep(grown, route, k);
  }

  /** The folder `pathMap` holds for the next path is the one `find` returns
      on the current level. */
  lemma MapHit(tree: seq<Node>, route: Route, parts: seq<string>, index: nat, pathMap: map<string, Route>)
    requires index < |parts| && AllSegments(parts)
    requires FolderRoute(tree, parts[..index]) == Some(route) && MapsRoutes(tree, pathMap)
    requires PathOf(parts[..index + 1]) in pathMap
    ensures FindFolder(Sub(tree, route), PathOf(parts[..index + 1])) < |Sub(tree, route)|
    ensures pathMap[PathOf(parts[..index + 1])] == route + [FindFolder(Sub(tree, route), PathOf(parts[..index + 1]))]
  {
    SegmentsOfPath(parts[..index + 1]);
    FolderRouteNext(tree, parts, index, route);
  }

  /** A folder the walk reaches is what the map then records for its path. */
  lemma MapRecord(tree: seq<Node>, route: Route, parts: seq<string>, index: nat, pathMap: map<string, Route>)
    requires 0 < index <= |parts| && AllSegments(parts)
    requires FolderRoute(tree, parts[..index]) == Some(route) && MapsRoutes(tree, pathMap)
    ensures MapsRoutes(tree, pathMap[PathOf(parts[..index]) := route])
  {
    SegmentsOfPath(parts[..index]);
    MapsRoutesAdd(tree, pathMap, PathOf(parts[..index]), route);
  }

  /** The callback `sortedFiles.forEach` runs for one record: walk its
      segments from the top, descending into the folder `pathMap` knows or the
      one `find` returns, creating it when missing, and at the last segment
      point the existing file node at the record or push a new one. The
      folder `pathMap` returns is always the one `find` would return on the
      level reached, as the comment at lib/store.ts:146-150 claims. */
  method AddFile(tree0: seq<Node>, pathMap0: map<string, Route>, file: FileItem)
      returns (tree: seq<Node>, pathMap: map<string, Route>)
    requires MapsRoutes(tree0, pathMap0)
    ensures tree == Insert(tree0, Segments(file.path), [], file)
    ensures MapsRoutes(tree, pathMap)
  {
    var parts := Segments(file.path);
    tree, pathMap := WalkParts(tree0, pathMap0, parts, file);
  }

  /** The loop over one record's segments (lib/store.ts:120-155). */
  method WalkParts(tree0: seq<Node>, pathMap0: map<string, Route>, parts: seq<string>, file: FileItem)
      returns (tree: seq<Node>, pathMap: map<string, Route>)
    requires MapsRoutes(tree0, pathMap0) && AllSegments(parts)
    ensures tree == Insert(tree0, parts, [], file)
    ensures MapsRoutes(tree, pathMap)
  {
    tree, pathMap := tree0, pathMap0;
    ghost var target := Insert(tree0, parts, [], file);
    var currentPath: string := "";
    var route: Route := [];
    var index := 0;
    while index < |parts|
      invariant 0 <= index <= |parts|
      invariant currentPath == PathOf(parts[..index])
      invariant MapsRoutes(tree, pathMap)
      invariant index < |parts| ==> Cursor(tree, route, parts, index, file, target)
      invariant index == |parts| ==> tree == target
    {
      var part := parts[index];
      var isLast := index == |parts| - 1;
      PathNext(parts, index);
      currentPath := if currentPath == "" then part else currentPath + "/" + part;
      var currentLevel := Sub(tree, route);
      if isLast {
        LeafStep(tree, route, parts, index, file, target, pathMap);
        var k := FindFile(currentLevel, currentPath);
        if k < |currentLevel| {
          tree := Graft(tree, route, currentLevel[k := currentLevel[k].(item := file)]);
        } else {
          tree := Graft(tree, route, currentLevel + [File(part, currentPath, file)]);
        }
      } else if currentPath in pathMap {
        MapHit(tree, route, parts, index, pathMap);
        DescendStep(tree, route, parts, index, file, target);
        route := pathMap[currentPath];
      } else {
        var k := FindFolder(currentLevel, currentPath);
        if k == |currentLevel| {
          CreateStep(tree, route, parts, index, file, target, pathMap);
          tree := Graft(tree, route, currentLevel + [Folder(part, currentPath, [])]);
        } else {
          DescendStep(tree, route, parts, index, file, target);
        }
        route := route + [k];
        MapRecord(tree, route, parts, index + 1, pathMap);
        pathMap := pathMap[currentPath := route];
      }
      index := index + 1;
    }
  }

  /** `sortedFiles.forEach(...)` starting from the empty `tree` and `pathMap`. */
  method BuildForest(sorted: seq<FileItem>) returns (tree: seq<Node>)
    ensures tree == BuildAsWritten(sorted)
  {
    tree := [];
    var pathMap: map<string, Route> := map[];
    var i := 0;
    while i < |sorted|
      invariant 0 <= i <= |sorted|
      invariant tree == BuildAsWritten(sorted[..i])
      invariant MapsRoutes(tree, pathMap)
    {
      assert sorted[..i + 1][..i] == sorted[..i];
      tree, pathMap := AddFile(tree, pathMap, sorted[i]);
      i := i + 1;
    }
    assert sorted[..i] == sorted;
  }
}
