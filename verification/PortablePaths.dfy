/** How the configuration stores paths: relative to its own directory inside a portable root, so that the root
    may be moved, and absolute everywhere else. */
module PortablePaths {
  import opened Basics
  import opened FileTree
  import opened Paths

  predicate IsSeparator(c: char) {
    c == '\\' || c == '/'
  }

  predicate Solid(part: string) {
    forall i | 0 <= i < |part| :: !IsSeparator(part[i])
  }

  /** A name below a drive. */
  predicate Plain(name: string) {
    name != "" && name != "." && name != ".." && Solid(name) && ':' !in name
  }

  predicate IsDrive(name: string) {
    |name| == 2 && name[1] == ':' && Solid(name) && name[0] != ':'
  }

  predicate Absolute(path: Path) {
    path != [] && IsDrive(path[0]) && forall i | 1 <= i < |path| :: Plain(path[i])
  }

  // ---------------------------------------------------------------------------------- resolving a text

  function Split(text: string): (parts: seq<string>)
    ensures parts != []
  {
    if text == "" then [""]
    else
      var rest := Split(text[1..]);
      if IsSeparator(text[0]) then [""] + rest else [[text[0]] + rest[0]] + rest[1..]
  }

  /** One step down a path, up it, or nowhere; there is no way up from a drive. */
  function Enter(at: Path, part: string): Path {
    if part == "" || part == "." then at
    else if part == ".." then (if |at| <= 1 then at else at[..|at| - 1])
    else at + [part]
  }

  function Walk(at: Path, parts: seq<string>): Path
    decreases parts
  {
    if parts == [] then at else Walk(Enter(at, parts[0]), parts[1..])
  }

  predicate Rooted(text: string) {
    |text| >= 2 && text[1] == ':'
  }

  /** `Path.GetFullPath(value, directory)`. */
  function ResolveAgainst(directory: Path, value: string): Path
    requires directory != []
  {
    if Rooted(value) then Walk([value[..2]], Split(value[2..]))
    else if value != "" && IsSeparator(value[0]) then Walk(directory[..1], Split(value))
    else Walk(directory, Split(value))
  }

  // ----------------------------------------------------------------------------------- formatting a path

  function CommonLength(a: Path, b: Path): (n: nat)
    ensures n <= |a| && n <= |b| && a[..n] == b[..n]
    ensures n < |a| && n < |b| ==> a[n] != b[n]
  {
    if a == [] || b == [] || a[0] != b[0] then 0
    else
      var n := CommonLength(a[1..], b[1..]);
      assert a[..n + 1] == [a[0]] + a[1..][..n] && b[..n + 1] == [b[0]] + b[1..][..n];
      n + 1
  }

  function Ups(n: nat): seq<string> {
    seq(n, _ => "..")
  }

  /** The way from a directory to a path. */
  function Way(directory: Path, path: Path): seq<string> {
    var n := CommonLength(directory, path);
    Ups(|directory| - n) + path[n..]
  }

  /** A way as it is written, `.` if it leads nowhere. */
  function WrittenWay(way: seq<string>): string {
    if way == [] then "." else Slashed(way)
  }

  /** The nearest directory at or above `start`, at most `levels` up, that is marked as a portable root. */
  function TryFind(marked: set<Path>, start: Path, levels: nat): (root: Option<Path>)
    ensures root.Some? ==> root.value in marked && root.value != [] && root.value <= start
  {
    if start == [] then None
    else if start in marked then Some(start)
    else if levels == 0 then None
    else TryFind(marked, start[..|start| - 1], levels - 1)
  }

  const MAXIMUM_SEARCH_DEPTH: nat := 4

  function FormatPathValue(marked: set<Path>, directory: Path, path: Path): string
    requires path != []
  {
    var root := TryFind(marked, directory, MAXIMUM_SEARCH_DEPTH);
    if root.None? || !Contains(root.value, path) then Render(path) else WrittenWay(Way(directory, path))
  }

  // -------------------------------------------------------------------------------------- the round trip

  lemma {:induction false} SplitSolid(part: string)
    requires Solid(part)
    ensures Split(part) == [part]
  {
    if part == "" {
    } else {
      SplitSolid(part[1..]);
      assert [part[0]] + part[1..] == part;
    }
  }

  lemma {:induction false} SplitFirst(part: string, c: char, rest: string)
    requires Solid(part) && IsSeparator(c)
    ensures Split(part + [c] + rest) == [part] + Split(rest)
  {
    var text := part + [c] + rest;
    if part == "" {
      assert text[1..] == rest;
    } else {
      SplitFirst(part[1..], c, rest);
      assert text[1..] == part[1..] + [c] + rest;
      assert Split(text[1..])[0] == part[1..] && Split(text[1..])[1..] == Split(rest);
      assert [part[0]] + part[1..] == part;
    }
  }

  ghost predicate AllSolid(parts: seq<string>) {
    forall i | 0 <= i < |parts| :: Solid(parts[i])
  }

  lemma {:induction false} SplitSlashed(parts: seq<string>)
    requires parts != [] && AllSolid(parts)
    ensures Split(Slashed(parts)) == parts
  {
    if |parts| == 1 {
      SplitSolid(parts[0]);
    } else {
      SplitSlashed(parts[1..]);
      SplitFirst(parts[0], '/', Slashed(parts[1..]));
    }
  }

  lemma {:induction false} SplitJoined(path: Path)
    requires path != [] && AllSolid(path)
    ensures Split(Join(path)) == path
  {
    if |path| == 1 {
      SplitSolid(path[0]);
    } else {
      SplitJoined(path[1..]);
      SplitFirst(path[0], SEPARATOR, Join(path[1..]));
    }
  }

  lemma {:induction false} WalkAppend(at: Path, a: seq<string>, b: seq<string>)
    ensures Walk(at, a + b) == Walk(Walk(at, a), b)
    decreases a
  {
    if a == [] {
      assert a + b == b;
    } else {
      assert (a + b)[1..] == a[1..] + b;
      WalkAppend(Enter(at, a[0]), a[1..], b);
    }
  }

  /** No way leads off the drive. */
  lemma {:induction false} WalkStaysOnItsDrive(at: Path, parts: seq<string>)
    requires at != []
    ensures Walk(at, parts) != [] && Walk(at, parts)[0] == at[0]
    decreases parts
  {
    if parts == [] {
    } else {
      WalkStaysOnItsDrive(Enter(at, parts[0]), parts[1..]);
    }
  }

  lemma {:induction false} WalkDown(at: Path, names: seq<string>)
    requires forall i | 0 <= i < |names| :: Plain(names[i])
    ensures Walk(at, names) == at + names
    decreases names
  {
    if names == [] {
      assert at + names == at;
    } else {
      WalkDown(at + [names[0]], names[1..]);
      assert at + [names[0]] + names[1..] == at + names;
    }
  }

  lemma {:induction false} WalkUp(at: Path, n: nat)
    requires n < |at|
    ensures Walk(at, Ups(n)) == at[..|at| - n]
  {
    if n == 0 {
      assert at[..|at|] == at;
    } else {
      assert Ups(n)[1..] == Ups(n - 1);
      WalkUp(at[..|at| - 1], n - 1);
    }
  }

  /** From anywhere with the same part below the common one, the way leads to the same place below it. */
  lemma WayLeadsThere(from: Path, path: Path, common: Path, down: Path)
    requires common != [] && path == common + down && common <= from
    requires forall i | 0 <= i < |down| :: Plain(down[i])
    ensures Walk(from, Ups(|from| - |common|) + down) == path
  {
    var ups := |from| - |common|;
    WalkAppend(from, Ups(ups), down);
    WalkUp(from, ups);
    assert from[..|from| - ups] == common;
    WalkDown(common, down);
  }

  lemma WayIsRelative(directory: Path, path: Path)
    requires Absolute(directory) && Absolute(path) && directory[0] == path[0]
    ensures var way := Way(directory, path);
      AllSolid(way) && !Rooted(WrittenWay(way)) && (WrittenWay(way) != "" && !IsSeparator(WrittenWay(way)[0]))
  {
    var way := Way(directory, path);
    assert forall i | 0 <= i < |way| :: way[i] == ".." || Plain(way[i]);
    if way != [] {
      var first := way[0];
      assert WrittenWay(way)[0] == first[0];
      assert |first| == 1 && |way| > 1 ==> WrittenWay(way)[1] == '/';
      assert |first| >= 2 ==> WrittenWay(way)[1] == first[1] != ':';
    }
  }

  /** A way that is written out is walked. */
  lemma WrittenWayIsWalked(from: Path, way: seq<string>)
    requires from != [] && AllSolid(way)
    requires !Rooted(WrittenWay(way)) && WrittenWay(way) != "" && !IsSeparator(WrittenWay(way)[0])
    ensures ResolveAgainst(from, WrittenWay(way)) == Walk(from, way)
  {
    if way == [] {
      SplitSolid(".");
      assert Walk(from, ["."]) == Walk(from, []);
    } else {
      SplitSlashed(way);
    }
  }

  lemma RelativeRoundTrip(directory: Path, path: Path)
    requires Absolute(directory) && Absolute(path) && directory[0] == path[0]
    ensures ResolveAgainst(directory, WrittenWay(Way(directory, path))) == path
  {
    var n := CommonLength(directory, path);
    WayIsRelative(directory, path);
    WayLeadsThere(directory, path, path[..n], path[n..]);
    WrittenWayIsWalked(directory, Way(directory, path));
  }

  lemma AbsoluteRoundTrip(directory: Path, path: Path)
    requires directory != [] && Absolute(path)
    ensures ResolveAgainst(directory, Render(path)) == path
  {
    var drive, text := path[0], Render(path);
    assert AllSolid(path);
    assert text[..2] == drive && text[1] == ':';
    if |path| == 1 {
      assert text[2..] == [] + [SEPARATOR] + "";
      SplitFirst("", SEPARATOR, "");
      assert Split(text[2..]) == ["", ""];
      assert Walk([drive], ["", ""]) == Walk([drive], [""]);
    } else {
      assert text[2..] == "" + [SEPARATOR] + Join(path[1..]);
      SplitFirst("", SEPARATOR, Join(path[1..]));
      SplitJoined(path[1..]);
      assert Walk([drive], [""] + path[1..]) == Walk([drive], path[1..]) by {
        assert ([""] + path[1..])[1..] == path[1..];
      }
      WalkDown([drive], path[1..]);
      assert [drive] + path[1..] == path;
    }
  }

  /** What is stored resolves to the path it was stored for, inside a portable root and outside. */
  lemma StoredPathResolves(marked: set<Path>, directory: Path, path: Path)
    requires Absolute(directory) && Absolute(path)
    ensures ResolveAgainst(directory, FormatPathValue(marked, directory, path)) == path
  {
    var root := TryFind(marked, directory, MAXIMUM_SEARCH_DEPTH);
    if root.None? || !Contains(root.value, path) {
      AbsoluteRoundTrip(directory, path);
    } else {
      assert root.value[0] == directory[0] && root.value[0] == path[0];
      RelativeRoundTrip(directory, path);
    }
  }

  /** The way between two paths in a root, split where they part. */
  lemma WayInRoot(root: Path, directory: Path, path: Path) returns (common: Path, down: Path)
    ensures common <= directory && path == common + down
    ensures Way(root + directory, root + path) == Ups(|directory| - |common|) + down
  {
    var a, b := root + directory, root + path;
    var n := CommonLength(a, b);
    CommonAtLeast(root, directory, path);
    common, down := directory[..n - |root|], path[n - |root|..];
    assert a[..n] == root + directory[..n - |root|] && b[..n] == root + path[..n - |root|];
    assert directory[..n - |root|] == a[..n][|root|..] == b[..n][|root|..] == path[..n - |root|];
    assert b[n..] == down;
  }

  /** Whatever the root is moved to, a path stored inside it is found where it was moved to. */
  lemma MovedRootKeepsWorking(root: Path, to: Path, directory: Path, path: Path)
    requires Absolute(root) && Absolute(to) && Absolute(root + directory) && Absolute(root + path)
    ensures ResolveAgainst(to + directory, WrittenWay(Way(root + directory, root + path))) == to + path
  {
    var common, down := WayInRoot(root, directory, path);
    WayIsRelative(root + directory, root + path);
    PartsArePlain(root, common, down);
    assert to + path == (to + common) + down && to + common <= to + directory;
    WayLeadsThere(to + directory, to + path, to + common, down);
    WrittenWayIsWalked(to + directory, Way(root + directory, root + path));
  }

  lemma PartsArePlain(root: Path, common: Path, down: Path)
    requires root != [] && Absolute(root + (common + down))
    ensures forall i | 0 <= i < |down| :: Plain(down[i])
  {
    assert forall i | 0 <= i < |down| :: down[i] == (root + (common + down))[|root| + |common| + i];
  }

  lemma {:induction false} CommonAtLeast(root: Path, a: Path, b: Path)
    ensures CommonLength(root + a, root + b) >= |root|
  {
    if root == [] {
    } else {
      assert (root + a)[1..] == root[1..] + a && (root + b)[1..] == root[1..] + b;
      CommonAtLeast(root[1..], a, b);
    }
  }

  // ------------------------------------------------------------------------------ which root is the one

  ghost predicate MarkedAbove(marked: set<Path>, start: Path, n: nat) {
    n <= |start| && start[..n] in marked
  }

  /** The directory of `n` names is marked, at most four levels above `start`, and none nearer is. */
  ghost predicate NearestMarked(marked: set<Path>, start: Path, n: nat) {
    1 <= n <= |start| <= n + 4 && MarkedAbove(marked, start, n) &&
    forall m | n < m <= |start| :: !MarkedAbove(marked, start, m)
  }

  lemma {:induction false} FoundAfter(marked: set<Path>, start: Path, levels: nat, n: nat)
    requires 1 <= n <= |start| <= n + levels && MarkedAbove(marked, start, n)
    requires forall m | n < m <= |start| :: !MarkedAbove(marked, start, m)
    ensures TryFind(marked, start, levels) == Some(start[..n])
    decreases levels
  {
    assert start[..|start|] == start;
    if n < |start| {
      var up := start[..|start| - 1];
      assert !MarkedAbove(marked, start, |start|);
      assert up[..n] == start[..n];
      forall m | n < m <= |up| ensures !MarkedAbove(marked, up, m) {
        assert up[..m] == start[..m] && !MarkedAbove(marked, start, m);
      }
      FoundAfter(marked, up, levels - 1, n);
    }
  }

  lemma {:induction false} NothingIsFound(marked: set<Path>, start: Path, levels: nat)
    requires forall m | 1 <= m <= |start| <= m + levels :: !MarkedAbove(marked, start, m)
    ensures TryFind(marked, start, levels) == None
    decreases levels
  {
    if start != [] {
      assert start[..|start|] == start && !MarkedAbove(marked, start, |start|);
      if levels > 0 {
        var up := start[..|start| - 1];
        forall m | 1 <= m <= |up| <= m + (levels - 1) ensures !MarkedAbove(marked, up, m) {
          assert up[..m] == start[..m] && !MarkedAbove(marked, start, m);
        }
        NothingIsFound(marked, up, levels - 1);
      }
    }
  }

  /** If any directory is marked, at or above this one and at most four levels up, one of them is the nearest. */
  lemma {:induction false} NearestExists(marked: set<Path>, start: Path, m: nat) returns (n: nat)
    requires 1 <= m <= |start| <= m + 4 && MarkedAbove(marked, start, m)
    ensures NearestMarked(marked, start, n)
    decreases |start| - m
  {
    if k :| m < k <= |start| && MarkedAbove(marked, start, k) {
      n := NearestExists(marked, start, k);
    } else {
      n := m;
    }
  }

  /** A path inside the nearest marked root is stored so that it is found wherever that root is moved to. */
  lemma StoredInsideMoves(marked: set<Path>, root: Path, to: Path, directory: Path, path: Path)
    requires Absolute(root) && Absolute(to) && Absolute(root + directory) && Absolute(root + path)
    requires NearestMarked(marked, root + directory, |root|)
    requires |root| > 1 || path == []
    ensures ResolveAgainst(to + directory, FormatPathValue(marked, root + directory, root + path)) == to + path
  {
    FoundAfter(marked, root + directory, 4, |root|);
    assert (root + directory)[..|root|] == root && root <= root + path;
    if path == [] { assert root + path == root; }
    MovedRootKeepsWorking(root, to, directory, path);
  }

  /** Any other path is stored so that it is the same one from any directory. */
  lemma StoredOutsideStays(marked: set<Path>, directory: Path, path: Path, from: Path)
    requires directory != [] && from != [] && Absolute(path)
    requires forall n: nat | NearestMarked(marked, directory, n) :: !(directory[..n] <= path)
    ensures ResolveAgainst(from, FormatPathValue(marked, directory, path)) == path
  {
    if m :| 1 <= m <= |directory| <= m + 4 && MarkedAbove(marked, directory, m) {
      var n := NearestExists(marked, directory, m);
      FoundAfter(marked, directory, 4, n);
    } else {
      NothingIsFound(marked, directory, 4);
    }
    AbsoluteRoundTrip(from, path);
  }
}
