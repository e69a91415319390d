/** The flat file records of the store (`FileItem` in lib/store.ts) and the
    two record-wise updates `streamContent` and `completeFile` apply to the list. */
module Files {

  datatype Option<T> = None | Some(value: T)

  /** The lifecycle tag of a file: `'creating' | 'writing' | 'complete'`. */
  datatype Status = Creating | Writing | Complete

  /** One tracked file. The timestamps stand for `Date.now()` readings; the
      model takes the clock reading as a parameter and never inspects it. */
  datatype FileItem = FileItem(
    path: string,
    content: string,
    status: Status,
    createdAt: Option<int>,
    updatedAt: Option<int>)

  /** `files.some((f) => f.path === path)`. */
  predicate HasPath(files: seq<FileItem>, path: string) {
    exists i :: 0 <= i < |files| && files[i].path == path
  }

  /** No two records share a path. */
  predicate UniquePaths(files: seq<FileItem>) {
    forall i, j :: 0 <= i < j < |files| ==> files[i].path != files[j].path
  }

  /** The record `createFile` appends for a fresh path. */
  function NewItem(path: string, now: int): (f: FileItem)
    ensures f.path == path && f.content == [] && f.status == Creating
    ensures f.createdAt == Some(now) && f.updatedAt == None
  {
    FileItem(path, [], Creating, Some(now), None)
  }

  /** `files.map((f) => f.path === path ? { ...f, content, status: 'writing', updatedAt: now } : f)`:
      every record whose path is exactly `path` gets the new content and the
      `Writing` status; every other record is left as it was. */
  function Streamed(files: seq<FileItem>, path: string, content: string, now: int): (r: seq<FileItem>)
    ensures |r| == |files|
    ensures forall i :: 0 <= i < |r| ==> r[i].path == files[i].path && r[i].createdAt == files[i].createdAt
    ensures forall i :: 0 <= i < |r| && files[i].path == path ==>
              r[i].content == content && r[i].status == Writing && r[i].updatedAt == Some(now)
    ensures forall i :: 0 <= i < |r| && files[i].path != path ==> r[i] == files[i]
  {
    seq(|files|, i requires 0 <= i < |files| =>
      if files[i].path == path then files[i].(content := content, status := Writing, updatedAt := Some(now))
      else files[i])
  }

  /** `files.map((f) => f.path === path ? { ...f, status: 'complete', updatedAt: now } : f)`:
      every record whose path is exactly `path` becomes `Complete` with its
      content kept; every other record is left as it was. */
  function Completed(files: seq<FileItem>, path: string, now: int): (r: seq<FileItem>)
    ensures |r| == |files|
    ensures forall i :: 0 <= i < |r| ==>
              r[i].path == files[i].path && r[i].content == files[i].content && r[i].createdAt == files[i].createdAt
    ensures forall i :: 0 <= i < |r| && files[i].path == path ==>
              r[i].status == Complete && r[i].updatedAt == Some(now)
    ensures forall i :: 0 <= i < |r| && files[i].path != path ==> r[i] == files[i]
  {
    seq(|files|, i requires 0 <= i < |files| =>
      if files[i].path == path then files[i].(status := Complete, updatedAt := Some(now))
      else files[i])
  }

  /** An update for a path no record has creates nothing and changes nothing. */
  lemma UnknownPathIsNoOp(files: seq<FileItem>, path: string, content: string, now: int)
    requires !HasPath(files, path)
    ensures Streamed(files, path, content, now) == files
    ensures Completed(files, path, now) == files
  {
    assert forall i :: 0 <= i < |files| ==> files[i].path != path;
  }

  /** Neither update changes the list of paths, so the no-duplicate invariant
      of the store survives them. */
  lemma UpdatesKeepPaths(files: seq<FileItem>, path: string, content: string, now: int)
    requires UniquePaths(files)
    ensures UniquePaths(Streamed(files, path, content, now))
    ensures UniquePaths(Completed(files, path, now))
  {
    var s := Streamed(files, path, content, now);
    var c := Completed(files, path, now);
    assert forall i :: 0 <= i < |files| ==> s[i].path == files[i].path && c[i].path == files[i].path;
  }
}
