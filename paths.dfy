/** String helpers with the JavaScript semantics the file store relies on:
    `trim`, `split` on one character, `filter(Boolean)` on the pieces, the
    `currentPath ? currentPath + '/' + part : part` accumulation, and the
    string order used for sorting. */
module Paths {

  /** The code points JavaScript's `String.prototype.trim` removes: the
      WhiteSpace and LineTerminator productions of ECMA-262 (section 12.2 and 12.3). */
  predicate IsSpace(c: char) {
    || c == '\U{0009}' || c == '\U{000A}' || c == '\U{000B}' || c == '\U{000C}'
    || c == '\U{000D}' || c == '\U{0020}' || c == '\U{00A0}' || c == '\U{1680}'
    || ('\U{2000}' <= c <= '\U{200A}')
    || c == '\U{2028}' || c == '\U{2029}' || c == '\U{202F}' || c == '\U{205F}'
    || c == '\U{3000}' || c == '\U{FEFF}'
  }

  function TrimStart(s: string): (r: string)
    ensures |r| <= |s| && r == s[|s| - |r|..]
    ensures forall i :: 0 <= i < |s| - |r| ==> IsSpace(s[i])
    ensures r == [] || !IsSpace(r[0])
  {
    if s != [] && IsSpace(s[0]) then TrimStart(s[1..]) else s
  }

  function TrimEnd(s: string): (r: string)
    ensures |r| <= |s| && r == s[..|r|]
    ensures forall i :: |r| <= i < |s| ==> IsSpace(s[i])
    ensures r == [] || !IsSpace(r[|r| - 1])
  {
    if s != [] && IsSpace(s[|s| - 1]) then TrimEnd(s[..|s| - 1]) else s
  }

  /** How many white-space code points `s` starts with. */
  function Leading(s: string): (n: nat)
    ensures n <= |s|
  {
    |s| - |TrimStart(s)|
  }

  /** `s.trim()`: the infix of `s` left after stripping white space from
      both ends; it neither starts nor ends with white space. */
  function Trim(s: string): (r: string)
    ensures Leading(s) + |r| <= |s| && r == s[Leading(s)..Leading(s) + |r|]
    ensures forall i :: 0 <= i < Leading(s) ==> IsSpace(s[i])
    ensures forall i :: Leading(s) + |r| <= i < |s| ==> IsSpace(s[i])
    ensures r == [] || (!IsSpace(r[0]) && !IsSpace(r[|r| - 1]))
    ensures r == [] <==> forall i :: 0 <= i < |s| ==> IsSpace(s[i])
  {
    TrimEnd(TrimStart(s))
  }

  /** A string with no white space at either end, as `trim` leaves it. */
  predicate IsTrimmed(s: string) {
    s == [] || (!IsSpace(s[0]) && !IsSpace(s[|s| - 1]))
  }

  /** Trimming changes exactly the strings with white space at an end. */
  lemma TrimmedIsFixed(s: string)
    ensures Trim(s) == s <==> IsTrimmed(s)
  {
    if IsTrimmed(s) && s != [] {
      assert TrimStart(s) == s;
      assert TrimEnd(s) == s;
    }
  }

  /** Trimming a trimmed string followed by one white-space code point gives
      the string back. */
  lemma TrimTrailing(s: string, c: char)
    requires s != [] && IsTrimmed(s) && IsSpace(c)
    ensures Trim(s + [c]) == s
  {
    var t := s + [c];
    assert TrimStart(t) == t;
    assert t[..|t| - 1] == s;
    assert TrimEnd(t) == TrimEnd(s);
    assert TrimEnd(s) == s;
  }

  lemma TrimIdempotent(s: string)
    ensures Trim(Trim(s)) == Trim(s)
  {
    TrimmedIsFixed(Trim(s));
  }

  /** The index of the last occurrence of `c` in `s`. */
  function LastIndexOf(s: string, c: char): (i: nat)
    requires c in s
    ensures i < |s| && s[i] == c && c !in s[i + 1..]
  {
    if s[|s| - 1] == c then |s| - 1 else LastIndexOf(s[..|s| - 1], c)
  }

  /** `s.split(sep)` for a one-character separator: the pieces between
      consecutive occurrences of `sep`, always at least one. */
  function SplitOn(s: string, sep: char): (parts: seq<string>)
    ensures |parts| >= 1
    ensures forall i :: 0 <= i < |parts| ==> sep !in parts[i]
    ensures JoinOn(parts, sep) == s
    decreases |s|
  {
    if sep !in s then [s]
    else
      var i := LastIndexOf(s, sep);
      var front := SplitOn(s[..i], sep);
      assert JoinOn(front + [s[i + 1..]], sep) == JoinOn(front, sep) + [sep] + s[i + 1..];
      assert s == s[..i] + [sep] + s[i + 1..];
      front + [s[i + 1..]]
  }

  /** `parts.join(sep)`. */
  function JoinOn(parts: seq<string>, sep: char): string
    requires |parts| >= 1
  {
    if |parts| == 1 then parts[0]
    else JoinOn(parts[..|parts| - 1], sep) + [sep] + parts[|parts| - 1]
  }

  /** A string without the separator splits into itself alone. */
  lemma SplitNone(s: string, sep: char)
    requires sep !in s
    ensures SplitOn(s, sep) == [s]
  {
  }

  /** An occurrence of `c` with no `c` after it is the last one. */
  lemma {:induction false} LastIndexOfIs(s: string, c: char, n: nat)
    requires n < |s| && s[n] == c && c !in s[n + 1..]
    ensures LastIndexOf(s, c) == n
  {
    if s[|s| - 1] != c {
      var front := s[..|s| - 1];
      assert front[n + 1..] == s[n + 1..|s| - 1];
      assert front[n] == c;
      LastIndexOfIs(front, c, n);
    }
  }

  /** Splitting at the last separator: a separator-free tail is the last piece. */
  lemma SplitLast(j: string, last: string, sep: char)
    requires sep !in last
    ensures SplitOn(j + [sep] + last, sep) == SplitOn(j, sep) + [last]
  {
    var s := j + [sep] + last;
    assert sep in s by { assert s[|j|] == sep; }
    assert s[|j|] == sep && s[..|j|] == j && s[|j| + 1..] == last;
    LastIndexOfIs(s, sep, |j|);
  }

  /** A non-empty list is its front followed by its last element. */
  lemma FrontLast<T>(s: seq<T>)
    requires s != []
    ensures s == s[..|s| - 1] + [s[|s| - 1]]
  {
  }

  /** One more piece: if the front splits back, so does the whole join. */
  lemma SplitJoinStep(parts: seq<string>, sep: char)
    requires |parts| > 1 && sep !in parts[|parts| - 1]
    requires SplitOn(JoinOn(parts[..|parts| - 1], sep), sep) == parts[..|parts| - 1]
    ensures SplitOn(JoinOn(parts, sep), sep) == parts
  {
    FrontLast(parts);
    SplitLast(JoinOn(parts[..|parts| - 1], sep), parts[|parts| - 1], sep);
  }

  /** Splitting a join of separator-free pieces gives the pieces back. */
  lemma {:induction false} SplitJoin(parts: seq<string>, sep: char)
    requires |parts| >= 1
    requires forall i :: 0 <= i < |parts| ==> sep !in parts[i]
    ensures SplitOn(JoinOn(parts, sep), sep) == parts
  {
    if |parts| > 1 {
      SplitJoin(parts[..|parts| - 1], sep);
      SplitJoinStep(parts, sep);
    }
  }

  /** `filter(Boolean)` on strings: drop the empty pieces. */
  function NonEmpty(parts: seq<string>): (r: seq<string>)
    ensures forall i :: 0 <= i < |r| ==> r[i] != []
    ensures forall p :: p in r <==> p in parts && p != []
    ensures |r| <= |parts|
  {
    if parts == [] then []
    else if parts[0] == [] then NonEmpty(parts[1..])
    else [parts[0]] + NonEmpty(parts[1..])
  }

  /** `filter(Boolean)` keeps every non-empty piece as often as it occurs. */
  lemma {:induction false} NonEmptyCount(parts: seq<string>)
    ensures forall p :: p != [] ==> multiset(NonEmpty(parts))[p] == multiset(parts)[p]
    ensures multiset(NonEmpty(parts))[[]] == 0
  {
    if parts != [] {
      assert parts == [parts[0]] + parts[1..];
      NonEmptyCount(parts[1..]);
    }
  }

  /** `filter(Boolean)` works piece by piece and keeps the order: filtering
      a concatenation concatenates the filtered parts. */
  lemma {:induction false} NonEmptyAppend(a: seq<string>, b: seq<string>)
    ensures NonEmpty(a + b) == NonEmpty(a) + NonEmpty(b)
  {
    if a == [] {
      assert a + b == b;
    } else {
      assert (a + b)[0] == a[0];
      assert (a + b)[1..] == a[1..] + b;
      NonEmptyAppend(a[1..], b);
    }
  }

  /** A path segment as `split('/').filter(Boolean)` produces it. */
  predicate IsSegment(s: string) {
    s != [] && '/' !in s
  }

  predicate AllSegments(parts: seq<string>) {
    forall i :: 0 <= i < |parts| ==> IsSegment(parts[i])
  }

  /** `path.split('/').filter(Boolean)`. */
  function Segments(path: string): (parts: seq<string>)
    ensures AllSegments(parts)
  {
    var r := NonEmpty(SplitOn(path, '/'));
    assert forall i :: 0 <= i < |r| ==> r[i] in SplitOn(path, '/');
    r
  }

  /** The segments are the non-empty `/`-pieces of the path, in order, each
      as often as it occurs: the pieces of `a/b` are those of `a` then `b`. */
  lemma SegmentsJoin(a: string, b: string)
    requires '/' !in b
    ensures Segments(a + "/" + b) == Segments(a) + NonEmpty([b])
  {
    SplitLast(a, b, '/');
    assert a + "/" + b == a + ['/'] + b;
    NonEmptyAppend(SplitOn(a, '/'), [b]);
  }

  /** A non-empty path without `/` is its only segment. */
  lemma SegmentsOfSegment(path: string)
    requires path != [] && '/' !in path
    ensures Segments(path) == [path]
  {
    SplitNone(path, '/');
    assert [path][1..] == [];
  }

  /** Every non-empty piece of the split is a segment as often as it occurs. */
  lemma SegmentsCount(path: string)
    ensures forall p :: p != [] ==> multiset(Segments(path))[p] == multiset(SplitOn(path, '/'))[p]
  {
    NonEmptyCount(SplitOn(path, '/'));
  }

  /** One step of the source's path accumulation:
      `currentPath ? `${currentPath}/${part}` : part`. */
  function Child(prefix: string, part: string): string {
    if prefix == [] then part else prefix + "/" + part
  }

  /** The `currentPath` reached after walking all of `parts`. */
  function PathOf(parts: seq<string>): string {
    if parts == [] then [] else Child(PathOf(parts[..|parts| - 1]), parts[|parts| - 1])
  }

  /** The path reached after one more segment. */
  lemma PathNext(parts: seq<string>, index: nat)
    requires index < |parts|
    ensures PathOf(parts[..index + 1]) == Child(PathOf(parts[..index]), parts[index])
    ensures parts[..index + 1] == parts[..index] + [parts[index]]
  {
    assert parts[..index + 1][..index] == parts[..index];
  }

  lemma {:induction false} PathOfIsJoin(parts: seq<string>)
    requires |parts| >= 1 && AllSegments(parts)
    ensures PathOf(parts) == JoinOn(parts, '/') && PathOf(parts) != []
  {
    if |parts| > 1 {
      PathOfIsJoin(parts[..|parts| - 1]);
    }
  }

  /** Splitting an accumulated path gives back its segments. */
  lemma SegmentsOfPath(parts: seq<string>)
    requires AllSegments(parts)
    ensures Segments(PathOf(parts)) == parts
  {
    if parts == [] {
      assert SplitOn([], '/') == [[]];
    } else {
      PathOfIsJoin(parts);
      SplitJoin(parts, '/');
      NonEmptyOfSegments(parts);
    }
  }

  /** Conversely, a path none of whose `/`-pieces is empty is the path its
      segments accumulate to. */
  lemma PathOfSegments(path: string)
    requires forall i :: 0 <= i < |SplitOn(path, '/')| ==> SplitOn(path, '/')[i] != []
    ensures PathOf(Segments(path)) == path
  {
    var pieces := SplitOn(path, '/');
    assert AllSegments(pieces);
    NonEmptyOfSegments(pieces);
    PathOfIsJoin(pieces);
  }

  lemma {:induction false} NonEmptyOfSegments(parts: seq<string>)
    requires AllSegments(parts)
    ensures NonEmpty(parts) == parts
  {
    if parts != [] {
      NonEmptyOfSegments(parts[1..]);
    }
  }

  /** Accumulated paths of segment sequences are distinct for distinct sequences. */
  lemma PathOfInjective(a: seq<string>, b: seq<string>)
    requires AllSegments(a) && AllSegments(b)
    requires PathOf(a) == PathOf(b)
    ensures a == b
  {
    SegmentsOfPath(a);
    SegmentsOfPath(b);
  }

  /** The order `localeCompare` is replaced by: lexicographic on code points. */
  predicate StrLess(a: string, b: string) {
    if b == [] then false
    else if a == [] then true
    else if a[0] != b[0] then a[0] < b[0]
    else StrLess(a[1..], b[1..])
  }

  lemma {:induction false} StrLessIrreflexive(a: string)
    ensures !StrLess(a, a)
  {
    if a != [] {
      StrLessIrreflexive(a[1..]);
    }
  }

  lemma {:induction false} StrLessTransitive(a: string, b: string, c: string)
    requires StrLess(a, b) && StrLess(b, c)
    ensures StrLess(a, c)
  {
    if a != [] && a[0] == b[0] && b[0] == c[0] {
      StrLessTransitive(a[1..], b[1..], c[1..]);
    }
  }

  lemma {:induction false} StrLessTotal(a: string, b: string)
    ensures StrLess(a, b) || a == b || StrLess(b, a)
  {
    if a != [] && b != [] && a[0] == b[0] {
      assert a == [a[0]] + a[1..] && b == [b[0]] + b[1..];
      StrLessTotal(a[1..], b[1..]);
    }
  }
}
